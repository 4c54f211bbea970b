/** The commitment to a map: `internal/maps/maps.go`, and the membership and non-membership proofs of
    `internal/proofs/create.go` built on it. */
module MerkleMap {
  import opened Bytes
  import opened Merkle
  import opened Varint
  import opened Kv
  import opened Listing

  // ----- Leaves -----

  /** `KVPair.Bytes`: key and value, each preceded by its length. */
  function KVBytes(p: Pair): Bytes {
    Uvarint(|p.key|) + p.key + Uvarint(|p.value|) + p.value
  }

  /** No two pairs share an encoding. */
  lemma KVBytesInjective(p: Pair, q: Pair)
    requires KVBytes(p) == KVBytes(q)
    ensures p == q
  {
    var x, y := Uvarint(|p.value|) + p.value, Uvarint(|q.value|) + q.value;
    assert KVBytes(p) == Uvarint(|p.key|) + (p.key + x) && KVBytes(q) == Uvarint(|q.key|) + (q.key + y);
    SameHead(p.key, x, q.key, y);
    UvarintPrefixFree(|p.value|, |q.value|, p.value, q.value);
  }

  /** A string preceded by its length can be told from what follows. */
  lemma SameHead(a: Bytes, x: Bytes, b: Bytes, y: Bytes)
    requires Uvarint(|a|) + (a + x) == Uvarint(|b|) + (b + y)
    ensures a == b && x == y
  {
    UvarintPrefixFree(|a|, |b|, a + x, b + y);
    assert (a + x)[..|a|] == a && (b + y)[..|b|] == b;
    assert (a + x)[|a|..] == x && (b + y)[|b|..] == y;
  }

  /** The buffer has room for sixteen bytes of lengths; Go panics beyond that. */
  method EncodePair(p: Pair) returns (r: Bytes)
    requires |Uvarint(|p.key|)| + |Uvarint(|p.value|)| <= 16
    ensures r == KVBytes(p)
  {
    var buf := new byte[8 + |p.key| + 8 + |p.value|];
    var nk := PutSized(buf, 0, p.key);
    var n := PutSized(buf, nk, p.value);
    r := buf[..n];
  }

  /** A length and the bytes it announces. */
  method PutSized(buf: array<byte>, off: nat, data: Bytes) returns (end: nat)
    requires off + |Uvarint(|data|)| + |data| <= buf.Length
    modifies buf
    ensures end == off + |Uvarint(|data|)| + |data| && buf[..end] == old(buf[..off]) + Uvarint(|data|) + data
  {
    var n := PutUvarint(buf, off, |data|);
    CopyAt(buf, off + n, data);
    end := off + n + |data|;
  }

  method CopyAt(buf: array<byte>, off: nat, data: Bytes)
    requires off + |data| <= buf.Length
    modifies buf
    ensures buf[..off + |data|] == old(buf[..off]) + data
    ensures forall i :: off + |data| <= i < buf.Length ==> buf[i] == old(buf[i])
  {
    var n := 0;
    while n < |data|
      invariant 0 <= n <= |data|
      invariant forall i :: 0 <= i < n ==> buf[off + i] == data[i]
      invariant forall i :: 0 <= i < buf.Length && !(off <= i < off + n) ==> buf[i] == old(buf[i])
    {
      buf[off + n] := data[n];
      n := n + 1;
    }
  }

  /** The leaf of a key: the value enters only through its hash. */
  function Leaf(h: Hash, k: Bytes, v: Bytes): Bytes {
    KVBytes(Pair(k, h(v)))
  }

  ghost function Leaves(h: Hash, m: KVMap): (s: seq<Bytes>)
    ensures |s| == |Sorted(true, m.Keys)|
    ensures forall i :: 0 <= i < |s| ==> Sorted(true, m.Keys)[i] in m
    ensures forall i :: 0 <= i < |s| ==> s[i] == Leaf(h, Sorted(true, m.Keys)[i], m[Sorted(true, m.Keys)[i]])
  {
    var ks := Sorted(true, m.Keys);
    assert forall i :: 0 <= i < |ks| ==> ks[i] in m.Keys;
    seq(|ks|, i requires 0 <= i < |ks| => Leaf(h, ks[i], m[ks[i]]))
  }

  /** The commitment as a function of the map alone. */
  ghost function MapRoot(h: Hash, m: KVMap): Bytes {
    Root(h, Leaves(h, m))
  }

  // ----- Building the commitment -----

  /** `merkleMap`: a list of pairs, sorted when the root is asked for. */
  class Builder {
    var kvs: seq<Pair>
    var sorted: bool

    ghost predicate Valid() reads this {
      sorted ==> PairsSorted(kvs)
    }

    constructor ()
      ensures Valid() && kvs == []
    {
      kvs, sorted := [], false;
    }

    method Set(h: Hash, k: Key, v: Bytes)
      modifies this
      ensures Valid() && kvs == old(kvs) + [Pair(k, h(v))]
    {
      sorted := false;
      kvs := kvs + [Pair(k, h(v))];
    }

    method Sort()
      requires Valid()
      modifies this
      ensures Valid() && sorted && PairsSorted(kvs) && multiset(kvs) == multiset(old(kvs))
    {
      if sorted { return; }
      kvs := SortPairs(kvs);
      sorted := true;
    }

    method GetHash(h: Hash) returns (root: Bytes)
      requires Valid()
      modifies this
      ensures Valid() && PairsSorted(kvs) && multiset(kvs) == multiset(old(kvs))
      ensures root == Root(h, Encoded(kvs))
    {
      Sort();
      root := Root(h, Encoded(kvs));
    }
  }

  /** `hashKVPairs`' leaves. */
  function Encoded(kvs: seq<Pair>): (s: seq<Bytes>)
    ensures |s| == |kvs| && forall i :: 0 <= i < |s| ==> s[i] == KVBytes(kvs[i])
  {
    seq(|kvs|, i requires 0 <= i < |kvs| => KVBytes(kvs[i]))
  }

  /** The pairs list the keys done so far, each once, with the hash of its value. */
  ghost predicate Lists(h: Hash, m: KVMap, done: set<Key>, kvs: seq<Pair>) {
    && done <= m.Keys
    && (forall i :: 0 <= i < |kvs| ==> kvs[i].key in done && kvs[i].value == h(m[kvs[i].key]))
    && (forall i, j :: 0 <= i < j < |kvs| ==> kvs[i].key != kvs[j].key)
    && (forall k :: k in done ==> exists i :: 0 <= i < |kvs| && kvs[i].key == k)
  }

  lemma ListsStep(h: Hash, m: KVMap, done: set<Key>, kvs: seq<Pair>, k: Key)
    requires Lists(h, m, done, kvs) && k in m && k !in done
    ensures Lists(h, m, done + {k}, kvs + [Pair(k, h(m[k]))])
  {
    var all := kvs + [Pair(k, h(m[k]))];
    forall x | x in done + {k} ensures exists i :: 0 <= i < |all| && all[i].key == x {
      if x == k { assert all[|kvs|].key == x; } else {
        var i :| 0 <= i < |kvs| && kvs[i].key == x;
        assert all[i].key == x;
      }
    }
  }

  /** `HashFromMap`, whatever order the map is visited in. */
  method HashFromMap(h: Hash, m: KVMap) returns (root: Bytes)
    ensures root == MapRoot(h, m)
  {
    var b := new Builder();
    var todo := m.Keys;
    while todo != {}
      invariant fresh(b) && b.Valid() && todo <= m.Keys && Lists(h, m, m.Keys - todo, b.kvs)
      decreases todo
    {
      var k :| k in todo;
      ListsStep(h, m, m.Keys - todo, b.kvs, k);
      assert m.Keys - todo + {k} == m.Keys - (todo - {k});
      b.Set(h, k, m[k]);
      todo := todo - {k};
    }
    assert m.Keys - todo == m.Keys;
    ghost var kvs := b.kvs;
    root := b.GetHash(h);
    SortedListIsLeaves(h, m, kvs, b.kvs);
  }

  function PairKeys(s: seq<Pair>): (ks: seq<Bytes>)
    ensures |ks| == |s| && forall i :: 0 <= i < |s| ==> ks[i] == s[i].key
  {
    seq(|s|, i requires 0 <= i < |s| => s[i].key)
  }

  lemma SortedListIsLeaves(h: Hash, m: KVMap, kvs: seq<Pair>, s: seq<Pair>)
    requires Lists(h, m, m.Keys, kvs) && PairsSorted(s) && multiset(s) == multiset(kvs)
    ensures Encoded(s) == Leaves(h, m)
  {
    PermutationLists(h, m, m.Keys, kvs, s);
    SortedKeysOrdered(h, m, s);
    ListedKeys(h, m, s);
    OrderedUnique(true, PairKeys(s), Sorted(true, m.Keys));
    SameKeysSameLeaves(h, m, s);
  }

  lemma SortedKeysOrdered(h: Hash, m: KVMap, s: seq<Pair>)
    requires Lists(h, m, m.Keys, s) && PairsSorted(s)
    ensures Ordered(true, PairKeys(s))
  {
    forall i, j | 0 <= i < j < |s| ensures Before(true, PairKeys(s)[i], PairKeys(s)[j]) {
      assert s[i].key != s[j].key && !PairLess(s[j], s[i]);
      LessTotal(s[i].key, s[j].key);
    }
  }

  lemma SameKeysSameLeaves(h: Hash, m: KVMap, s: seq<Pair>)
    requires Lists(h, m, m.Keys, s) && PairKeys(s) == Sorted(true, m.Keys)
    ensures Encoded(s) == Leaves(h, m)
  {
    hide Sorted, KVBytes;
    forall i | 0 <= i < |s| ensures Encoded(s)[i] == Leaves(h, m)[i] {
      assert PairKeys(s)[i] == Sorted(true, m.Keys)[i];
      assert s[i] == Pair(s[i].key, h(m[s[i].key]));
    }
  }

  lemma ListedKeys(h: Hash, m: KVMap, s: seq<Pair>)
    requires Lists(h, m, m.Keys, s)
    ensures forall k: Bytes :: k in PairKeys(s) <==> k in Sorted(true, m.Keys)
  {
    forall k: Bytes | k in PairKeys(s) ensures k in Sorted(true, m.Keys) {
      var i :| 0 <= i < |s| && PairKeys(s)[i] == k;
      assert s[i].key in m.Keys;
    }
    forall k: Bytes | k in Sorted(true, m.Keys) ensures k in PairKeys(s) {
      var i :| 0 <= i < |s| && s[i].key == k;
      assert PairKeys(s)[i] == k;
    }
  }

  lemma PermutationLists(h: Hash, m: KVMap, done: set<Key>, kvs: seq<Pair>, s: seq<Pair>)
    requires Lists(h, m, done, kvs) && multiset(s) == multiset(kvs)
    ensures Lists(h, m, done, s)
  {
    forall i | 0 <= i < |s| ensures s[i].key in done && s[i].value == h(m[s[i].key]) {
      assert s[i] in multiset(s);
      assert s[i] in kvs;
    }
    forall k | k in done ensures exists i :: 0 <= i < |s| && s[i].key == k {
      var i :| 0 <= i < |kvs| && kvs[i].key == k;
      assert kvs[i] in multiset(kvs);
      assert kvs[i] in s;
    }
    forall i, j | 0 <= i < j < |s| ensures s[i].key != s[j].key {
      if s[i].key == s[j].key {
        assert s[i] == s[j];
        CountTwice(s, i, j);
        DistinctOnce(kvs, s[i]);
        assert false;
      }
    }
  }

  lemma {:induction false} DistinctOnce(s: seq<Pair>, p: Pair)
    requires forall i, j :: 0 <= i < j < |s| ==> s[i].key != s[j].key
    ensures multiset(s)[p] <= 1
  {
    if s != [] {
      DistinctOnce(s[1..], p);
      assert s == [s[0]] + s[1..];
      assert s[0] !in s[1..];
    }
  }

  // ----- Binding -----

  /** The leaves tell apart maps with different keys, and values up to their hashes. */
  lemma SameLeaves(h: Hash, a: KVMap, b: KVMap)
    requires Leaves(h, a) == Leaves(h, b)
    ensures a.Keys == b.Keys && forall k :: k in a ==> h(a[k]) == h(b[k])
  {
    hide Sorted, KVBytes;
    var s, t := Sorted(true, a.Keys), Sorted(true, b.Keys);
    forall i | 0 <= i < |s| ensures s[i] == t[i] && h(a[s[i]]) == h(b[t[i]]) {
      assert Leaves(h, a)[i] == Leaves(h, b)[i];
      KVBytesInjective(Pair(s[i], h(a[s[i]])), Pair(t[i], h(b[t[i]])));
    }
    assert s == t;
    forall k: Key ensures k in a.Keys <==> k in b.Keys { assert k in s <==> k in t; }
    forall k | k in a ensures h(a[k]) == h(b[k]) {
      assert k in s;
      var i :| 0 <= i < |s| && s[i] == k;
    }
  }

  method ListLeaves(h: Hash, m: KVMap) returns (keys: seq<Key>, items: seq<Bytes>)
    ensures keys == Sorted(true, m.Keys) && items == Leaves(h, m)
  {
    keys := SortKeys(true, m.Keys);
    assert forall i :: 0 <= i < |keys| ==> keys[i] in m.Keys;
    items := seq(|keys|, i requires 0 <= i < |keys| => Leaf(h, keys[i], m[keys[i]]));
  }

  /** From two different maps with one commitment, two different strings with one hash. */
  method FindMapCollision(h: Hash, a: KVMap, b: KVMap) returns (x: Bytes, y: Bytes)
    requires DigestOk(h) && a != b && MapRoot(h, a) == MapRoot(h, b)
    ensures x != y && h(x) == h(y)
  {
    var _, s := ListLeaves(h, a);
    var _, t := ListLeaves(h, b);
    if s != t {
      x, y := FindCollision(h, s, t);
    } else {
      SameLeaves(h, a, b);
      var k :| k in a && a[k] != b[k];
      x, y := a[k], b[k];
    }
  }

  // ----- Proofs -----

  datatype Existence = Existence(key: Bytes, value: Bytes, path: seq<InnerOp>)
  datatype NonExistence = NonExistence(key: Bytes, left: Option<Existence>, right: Option<Existence>)

  /** The ICS-23 leaf step of `convertLeafOp`: prefix 0, lengths before key and hashed value. */
  function ApplyLeaf(h: Hash, k: Bytes, v: Bytes): Bytes {
    h([0] + Uvarint(|k|) + k + Uvarint(|h(v)|) + h(v))
  }

  /** The root an existence proof commits to. */
  function ProvenRoot(h: Hash, p: Existence): Bytes {
    FoldOps(h, ApplyLeaf(h, p.key, p.value), p.path)
  }

  /** The shape ICS-23 demands of an inner step of this tree: a prefix of its own or one with a left sibling in it,
      not to be confused with a leaf's, and whole siblings after the child. */
  predicate StepConforms(op: InnerOp) {
    1 <= |op.prefix| <= 1 + DIGEST && op.prefix[0] != 0 && |op.suffix| % DIGEST == 0
  }

  ghost predicate Conforms(path: seq<InnerOp>) {
    forall j :: 0 <= j < |path| ==> StepConforms(path[j])
  }

  /** What ICS-23 demands of an existence proof against a root; a leaf needs a key and a value. */
  ghost predicate Verifies(h: Hash, root: Bytes, p: Existence) {
    p.key != [] && p.value != [] && Conforms(p.path) && ProvenRoot(h, p) == root
  }

  lemma LeafStepMatches(h: Hash, k: Bytes, v: Bytes)
    ensures ApplyLeaf(h, k, v) == LeafHash(h, Leaf(h, k, v))
  {
    assert [0] + Uvarint(|k|) + k + Uvarint(|h(v)|) + h(v) == [0] + Leaf(h, k, v);
  }

  /** The proof of the `i`-th key. */
  ghost function ProofAt(h: Hash, m: KVMap, i: nat): Existence
    requires i < |m.Keys|
  {
    var k := Sorted(true, m.Keys)[i];
    assert k in Sorted(true, m.Keys);
    Existence(k, m[k], OpsFor(h, i, Leaves(h, m)))
  }

  /** Every generated existence proof leads to the commitment, and is accepted unless its value is empty. */
  lemma ExistenceVerifies(h: Hash, m: KVMap, i: nat)
    requires i < |m.Keys|
    ensures ProvenRoot(h, ProofAt(h, m, i)) == MapRoot(h, m)
    ensures DigestOk(h) ==> (Verifies(h, MapRoot(h, m), ProofAt(h, m, i)) <==> ProofAt(h, m, i).value != [])
  {
    var k := Sorted(true, m.Keys)[i];
    LeafStepMatches(h, k, m[k]);
    FoldIsRoot(h, i, Leaves(h, m));
    if DigestOk(h) { StepsConform(h, i, Leaves(h, m)); }
  }

  lemma {:induction false} StepsConform(h: Hash, i: nat, items: seq<Bytes>)
    requires DigestOk(h) && i < |items|
    ensures Conforms(OpsFor(h, i, items))
    decreases |items|
  {
    if |items| > 1 {
      var k := SplitPoint(|items|);
      OpsSplit(h, i, items);
      if i < k {
        RootLength(h, items[k..]);
        StepsConform(h, i, items[..k]);
      } else {
        RootLength(h, items[..k]);
        StepsConform(h, i - k, items[k..]);
      }
    }
  }

  /** `sort.SearchStrings`: the first position whose key is not below `key`. */
  method Search(keys: seq<Key>, key: Bytes) returns (n: nat)
    requires Ordered(true, keys)
    ensures n <= |keys|
    ensures forall i :: 0 <= i < n ==> Less(keys[i], key)
    ensures forall i :: n <= i < |keys| ==> !Less(keys[i], key)
  {
    var lo, hi := 0, |keys|;
    while lo < hi
      invariant 0 <= lo <= hi <= |keys|
      invariant forall i :: 0 <= i < lo ==> Less(keys[i], key)
      invariant forall i :: hi <= i < |keys| ==> !Less(keys[i], key)
    {
      var mid := (lo + hi) / 2;
      if Less(keys[mid], key) {
        forall i | 0 <= i < mid ensures Less(keys[i], key) {
          assert Before(true, keys[i], keys[mid]);
          LessTransitive(keys[i], keys[mid], key);
        }
        lo := mid + 1;
      } else {
        forall i | mid < i < |keys| ensures !Less(keys[i], key) {
          assert Before(true, keys[mid], keys[i]);
          if Less(keys[i], key) { LessTransitive(keys[mid], keys[i], key); assert false; }
        }
        hi := mid;
      }
    }
    n := lo;
  }

  /** What ICS-23 demands of a proof that `key` is absent from the map with this root. */
  ghost predicate ProvesAbsence(h: Hash, root: Bytes, key: Bytes, p: NonExistence) {
    && p.key == key
    && (p.left.Some? || p.right.Some?)
    && (p.left.Some? ==> Verifies(h, root, p.left.value) && Less(p.left.value.key, key))
    && (p.right.Some? ==> Verifies(h, root, p.right.value) && Less(key, p.right.value.key))
    && (p.left.Some? && p.right.Some? ==> LeftNeighbour(p.left.value.path, p.right.value.path))
    && (p.left.None? && p.right.Some? ==> LeftMost(p.right.value.path))
    && (p.left.Some? && p.right.None? ==> RightMost(p.left.value.path))
  }

  /** `CreateNonMembershipProof`'s choice of neighbours around an absent key. */
  ghost predicate Brackets(h: Hash, m: KVMap, key: Bytes, n: nat, p: NonExistence) {
    && n <= |m.Keys| && p.key == key
    && p.left == (if n >= 1 then Some(ProofAt(h, m, n - 1)) else None)
    && p.right == (if n < |m.Keys| then Some(ProofAt(h, m, n)) else None)
    && (forall i :: 0 <= i < n ==> Less(Sorted(true, m.Keys)[i], key))
    && (forall i :: n <= i < |m.Keys| ==> !Less(Sorted(true, m.Keys)[i], key))
  }

  /** Neither neighbour has an empty value. */
  predicate FullSides(p: NonExistence) {
    (p.left.Some? ==> p.left.value.value != []) && (p.right.Some? ==> p.right.value.value != [])
  }

  /** Bracketing proofs of an absent key pass the ICS-23 checks if and only if the map has any keys, for the proof of
      an empty map has neither side, and the neighbours' values are not empty. */
  lemma BracketsProveAbsence(h: Hash, m: KVMap, key: Bytes, n: nat, p: NonExistence)
    requires DigestOk(h) && key !in m.Keys && Brackets(h, m, key, n, p)
    ensures ProvesAbsence(h, MapRoot(h, m), key, p) <==> m != map[] && FullSides(p)
  {
    assert |m.Keys| == 0 <==> m.Keys == {};
    if 1 <= n < |m.Keys| {
      BetweenBrackets(h, m, key, n, p);
    } else if n >= 1 {
      LastBracket(h, m, key, n, p);
    } else if |m.Keys| > 0 {
      FirstBracket(h, m, key, p);
    }
  }

  lemma BetweenBrackets(h: Hash, m: KVMap, key: Bytes, n: nat, p: NonExistence)
    requires DigestOk(h) && key !in m.Keys && Brackets(h, m, key, n, p) && 1 <= n < |m.Keys|
    ensures ProvesAbsence(h, MapRoot(h, m), key, p) <==> FullSides(p)
  {
    hide DigestOk, MapRoot, ProvesAbsence, FullSides, VerifiesIfFull, Less, Sorted, LeftMost, RightMost, OpsFor,
         LeftNeighbour;
    EndProof(h, m, n - 1, p.left.value);
    EndProof(h, m, n, p.right.value);
    NextIsGreater(m, key, n);
    NeighbourPaths(h, Leaves(h, m), n, p.left.value.path, p.right.value.path);
    AbsentBetween(h, MapRoot(h, m), key, p);
  }

  lemma LastBracket(h: Hash, m: KVMap, key: Bytes, n: nat, p: NonExistence)
    requires DigestOk(h) && Brackets(h, m, key, n, p) && 1 <= n == |m.Keys|
    ensures ProvesAbsence(h, MapRoot(h, m), key, p) <==> FullSides(p)
  {
    hide DigestOk, MapRoot, ProvesAbsence, FullSides, VerifiesIfFull, ProofAt, Less, Sorted, LeftMost, RightMost;
    EndProof(h, m, n - 1, p.left.value);
    AbsentAtEnd(h, MapRoot(h, m), key, p);
  }

  lemma FirstBracket(h: Hash, m: KVMap, key: Bytes, p: NonExistence)
    requires DigestOk(h) && key !in m.Keys && Brackets(h, m, key, 0, p) && |m.Keys| > 0
    ensures ProvesAbsence(h, MapRoot(h, m), key, p) <==> FullSides(p)
  {
    EndProof(h, m, 0, p.right.value);
    NextIsGreater(m, key, 0);
    AbsentAtEnd(h, MapRoot(h, m), key, p);
  }

  lemma NeighbourPaths(h: Hash, items: seq<Bytes>, n: nat, a: seq<InnerOp>, b: seq<InnerOp>)
    requires DigestOk(h) && 1 <= n < |items| && a == OpsFor(h, n - 1, items) && b == OpsFor(h, n, items)
    ensures LeftNeighbour(a, b)
  {
    NeighboursExact(h, n - 1, n, items);
  }

  ghost predicate VerifiesIfFull(h: Hash, root: Bytes, p: Existence) {
    Verifies(h, root, p) <==> p.value != []
  }

  lemma AbsentBetween(h: Hash, root: Bytes, key: Bytes, p: NonExistence)
    requires p.key == key && p.left.Some? && p.right.Some?
    requires VerifiesIfFull(h, root, p.left.value) && VerifiesIfFull(h, root, p.right.value)
    requires Less(p.left.value.key, key) && Less(key, p.right.value.key)
    requires LeftNeighbour(p.left.value.path, p.right.value.path)
    ensures ProvesAbsence(h, root, key, p) <==> FullSides(p)
  {
  }

  lemma AbsentAtEnd(h: Hash, root: Bytes, key: Bytes, p: NonExistence)
    requires p.key == key && (p.left.None? <==> p.right.Some?)
    requires p.left.Some? ==>
               VerifiesIfFull(h, root, p.left.value) && Less(p.left.value.key, key) && RightMost(p.left.value.path)
    requires p.right.Some? ==>
               VerifiesIfFull(h, root, p.right.value) && Less(key, p.right.value.key) && LeftMost(p.right.value.path)
    ensures ProvesAbsence(h, root, key, p) <==> FullSides(p)
  {
  }

  /** A generated proof leads to the root; only the first is leftmost and only the last rightmost. */
  lemma EndProof(h: Hash, m: KVMap, i: nat, p: Existence)
    requires DigestOk(h) && i < |m.Keys| && p == ProofAt(h, m, i)
    ensures VerifiesIfFull(h, MapRoot(h, m), p) && p.key == Sorted(true, m.Keys)[i]
    ensures LeftMost(p.path) <==> i == 0
    ensures RightMost(p.path) <==> i == |m.Keys| - 1
  {
    ExistenceVerifies(h, m, i);
    EndsExact(h, i, Leaves(h, m));
  }

  lemma NextIsGreater(m: KVMap, key: Bytes, n: nat)
    requires n < |m.Keys| && key !in m.Keys && !Less(Sorted(true, m.Keys)[n], key)
    ensures Less(key, Sorted(true, m.Keys)[n])
  {
    assert Sorted(true, m.Keys)[n] in Sorted(true, m.Keys);
    LessTotal(key, Sorted(true, m.Keys)[n]);
  }

  /** For the empty map every key gets the proof with neither side, which ICS-23 refuses. */
  lemma EmptyMapHasNoProof(h: Hash, key: Bytes, n: nat, p: NonExistence)
    requires Brackets(h, map[], key, n, p)
    ensures p == NonExistence(key, None, None) && !ProvesAbsence(h, MapRoot(h, map[]), key, p)
  {
  }

  datatype ProofError = EmptyKey | EmptyKeyInData | KeyInMap | KeyNotInMap

  datatype Result<+T> = Ok(value: T) | Err(error: ProofError)

  predicate ValidData(data: map<Bytes, Bytes>) {
    [] !in data.Keys
  }

  function AsKVMap(data: map<Bytes, Bytes>): (m: KVMap)
    requires ValidData(data)
    ensures m.Keys == data.Keys && forall k :: k in data ==> m[k] == data[k]
  {
    map k: Key | k in data.Keys :: data[k]
  }

  /** The position of a key that is there. */
  method Find(keys: seq<Key>, key: Key) returns (n: nat)
    requires Ordered(true, keys) && key in keys
    ensures n < |keys| && keys[n] == key
  {
    n := Search(keys, key);
    ghost var i :| 0 <= i < |keys| && keys[i] == key;
    LessIrreflexive(key);
    assert n < i ==> Before(true, keys[n], keys[i]);
  }

  /** `createExistenceProof`. */
  method CreateExistenceProof(h: Hash, data: map<Bytes, Bytes>, key: Bytes) returns (r: Result<Existence>)
    ensures r.Err? <==> !ValidData(data) || key !in data
    ensures r.Err? ==> r.error == if ValidData(data) then KeyNotInMap else EmptyKeyInData
    ensures r.Ok? ==> exists i :: 0 <= i < |data.Keys| && r.value == ProofAt(h, AsKVMap(data), i) && r.value.key == key
  {
    if [] in data { return Err(EmptyKeyInData); }
    if key !in data { return Err(KeyNotInMap); }
    var m := AsKVMap(data);
    var keys, items := ListLeaves(h, m);
    assert key in keys;
    var n := Find(keys, key);
    var aunts := AuditPath(h, n, items);
    ConvertedAreSteps(h, n, items);
    var ops := ConvertInnerOps(aunts, n, |items|);
    r := Ok(Existence(key, data[key], ops.value));
    assert r.value == ProofAt(h, m, n);
  }

  method CreateMembershipProof(h: Hash, data: map<Bytes, Bytes>, key: Bytes) returns (r: Result<Existence>)
    ensures r.Err? <==> key == [] || !ValidData(data) || key !in data
    ensures r.Err? ==>
              r.error == if key == [] then EmptyKey else if ValidData(data) then KeyNotInMap else EmptyKeyInData
    ensures r.Ok? ==>
              r.value.key == key && r.value.value == data[key] && ProvenRoot(h, r.value) == MapRoot(h, AsKVMap(data))
    ensures r.Ok? && DigestOk(h) ==> (Verifies(h, MapRoot(h, AsKVMap(data)), r.value) <==> data[key] != [])
  {
    if key == [] { return Err(EmptyKey); }
    r := CreateExistenceProof(h, data, key);
    if r.Ok? {
      ghost var i :| 0 <= i < |data.Keys| && r.value == ProofAt(h, AsKVMap(data), i);
      ExistenceVerifies(h, AsKVMap(data), i);
    }
  }

  method CreateNonMembershipProof(h: Hash, data: map<Bytes, Bytes>, key: Bytes) returns (r: Result<NonExistence>)
    ensures r.Err? <==> key == [] || key in data || !ValidData(data)
    ensures r.Err? ==> r.error == if key == [] then EmptyKey else if key in data then KeyInMap else EmptyKeyInData
    ensures r.Ok? ==> exists n :: Brackets(h, AsKVMap(data), key, n, r.value)
    ensures r.Ok? && DigestOk(h) ==>
              (ProvesAbsence(h, MapRoot(h, AsKVMap(data)), key, r.value) <==> data != map[] && FullSides(r.value))
  {
    if key == [] { return Err(EmptyKey); }
    if key in data { return Err(KeyInMap); }
    if [] in data { return Err(EmptyKeyInData); }
    var p, n := BracketKey(h, data, key);
    r := Ok(p);
    if DigestOk(h) {
      BracketsProveAbsence(h, AsKVMap(data), key, n, p);
      assert AsKVMap(data) == map[] <==> data == map[];
    }
  }

  /** The proofs of the leaves on both sides of an absent key. */
  method BracketKey(h: Hash, data: map<Bytes, Bytes>, key: Bytes) returns (p: NonExistence, n: nat)
    requires ValidData(data) && key !in data && key != []
    ensures Brackets(h, AsKVMap(data), key, n, p)
  {
    var m := AsKVMap(data);
    var keys := SortKeys(true, m.Keys);
    n := Search(keys, key);
    var left, right := BothSides(h, data, keys, n);
    p := NonExistence(key, left, right);
    Bracketed(h, m, keys, key, n, p);
  }

  method BothSides(h: Hash, data: map<Bytes, Bytes>, keys: seq<Key>, n: nat)
    returns (left: Option<Existence>, right: Option<Existence>)
    requires ValidData(data) && n <= |keys| && keys == Sorted(true, AsKVMap(data).Keys)
    ensures left == if n >= 1 then Some(ProofAt(h, AsKVMap(data), n - 1)) else None
    ensures right == if n < |keys| then Some(ProofAt(h, AsKVMap(data), n)) else None
  {
    left, right := None, None;
    if n >= 1 { left := NeighbourProof(h, data, keys, n - 1); }
    if n < |keys| { right := NeighbourProof(h, data, keys, n); }
  }

  lemma Bracketed(h: Hash, m: KVMap, keys: seq<Key>, key: Bytes, n: nat, p: NonExistence)
    requires keys == Sorted(true, m.Keys) && n <= |keys| && p.key == key
    requires p.left == (if n >= 1 then Some(ProofAt(h, m, n - 1)) else None)
    requires p.right == (if n < |keys| then Some(ProofAt(h, m, n)) else None)
    requires forall i :: 0 <= i < n ==> Less(keys[i], key)
    requires forall i :: n <= i < |keys| ==> !Less(keys[i], key)
    ensures Brackets(h, m, key, n, p)
  {
  }

  method NeighbourProof(h: Hash, data: map<Bytes, Bytes>, keys: seq<Key>, n: nat) returns (p: Option<Existence>)
    requires ValidData(data) && n < |keys| && keys == Sorted(true, AsKVMap(data).Keys)
    ensures p == Some(ProofAt(h, AsKVMap(data), n))
  {
    assert keys[n] in keys;
    var r := CreateExistenceProof(h, data, keys[n]);
    ghost var i :| 0 <= i < |data.Keys| && r.value == ProofAt(h, AsKVMap(data), i) && r.value.key == keys[n];
    if i < n { BeforeIsStrict(true, keys[i], keys[n]); }
    if n < i { BeforeIsStrict(true, keys[n], keys[i]); }
    p := Some(r.value);
  }
}

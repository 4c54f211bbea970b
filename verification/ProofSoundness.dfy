/** What an accepted ICS-23 proof is worth: a proof against a map's root that says something false about the map
    yields two different strings with one hash. */
module ProofSoundness {
  import opened Bytes
  import opened Merkle
  import opened Kv
  import opened MerkleMap

  /** Where a proof leads: to a leaf of the tree, or to a collision. */
  datatype Trace = Found(index: nat) | Clash(x: Bytes, y: Bytes)

  lemma FoldLength(h: Hash, leaf: Bytes, ops: seq<InnerOp>)
    requires DigestOk(h)
    ensures |FoldOps(h, LeafHash(h, leaf), ops)| == DIGEST
  {
  }

  /** A conforming step whose input is a node's preimage stands for that node: the child is one of its halves. */
  lemma StepIsSplit(h: Hash, items: seq<Bytes>, op: InnerOp, child: Bytes)
    requires DigestOk(h) && StepConforms(op) && |child| == DIGEST
    requires Preimage(h, items) == op.prefix + child + op.suffix
    ensures |items| >= 2
    ensures var k := SplitPoint(|items|);
            && 1 <= k < |items|
            && (|| (op == Inner(true, Root(h, items[k..])) && child == Root(h, items[..k]))
                || (op == Inner(false, Root(h, items[..k])) && child == Root(h, items[k..])))
  {
    var x := op.prefix + child + op.suffix;
    PreimageShape(h, items);
    assert x[0] == op.prefix[0];
    var k := SplitPoint(|items|);
    SplitBounds(|items|);
    var l, r := Root(h, items[..k]), Root(h, items[k..]);
    RootLength(h, items[..k]);
    RootLength(h, items[k..]);
    assert x == [1] + l + r;
    ThreeParts(op.prefix, child, op.suffix, l, r);
  }

  lemma ThreeParts(prefix: Bytes, child: Bytes, suffix: Bytes, l: Bytes, r: Bytes)
    requires |child| == |l| == |r| == DIGEST && 1 <= |prefix| && |suffix| % DIGEST == 0
    requires prefix + child + suffix == [1] + l + r
    ensures || (prefix == [1] && child == l && suffix == r)
            || (prefix == [1] + l && child == r && suffix == [])
  {
    var x := prefix + child + suffix;
    assert |x| == 1 + 2 * DIGEST;
    if suffix == [] {
      assert x[..1 + DIGEST] == prefix && ([1] + l + r)[..1 + DIGEST] == [1] + l;
      assert x[1 + DIGEST..] == child + suffix == child && ([1] + l + r)[1 + DIGEST..] == r;
    } else {
      assert |suffix| == DIGEST && |prefix| == 1;
      assert x[..1] == prefix && ([1] + l + r)[..1] == [1];
      assert x[1..1 + DIGEST] == child && ([1] + l + r)[1..1 + DIGEST] == l;
      assert x[1 + DIGEST..] == suffix && ([1] + l + r)[1 + DIGEST..] == r;
    }
  }

  /** Follows a proof from the root towards its leaf. */
  method Follow(h: Hash, items: seq<Bytes>, leaf: Bytes, ops: seq<InnerOp>) returns (t: Trace)
    requires DigestOk(h) && Conforms(ops) && FoldOps(h, LeafHash(h, leaf), ops) == Root(h, items)
    ensures t.Clash? ==> t.x != t.y && h(t.x) == h(t.y)
    ensures t.Found? ==> t.index < |items| && items[t.index] == leaf && ops == OpsFor(h, t.index, items)
    decreases |ops|
  {
    var x := Preimage(h, items);
    RootIsHash(h, items);
    if ops == [] {
      var y := [0] + leaf;
      if x != y { return Clash(x, y); }
      LeafPreimage(h, items, leaf);
      return Found(0);
    }
    var n := |ops| - 1;
    var child := FoldOps(h, LeafHash(h, leaf), ops[..n]);
    var y := ops[n].prefix + child + ops[n].suffix;
    if x != y { return Clash(x, y); }
    FoldLength(h, leaf, ops[..n]);
    StepIsSplit(h, items, ops[n], child);
    t := FollowHalf(h, items, leaf, ops);
  }

  method FollowHalf(h: Hash, items: seq<Bytes>, leaf: Bytes, ops: seq<InnerOp>) returns (t: Trace)
    requires DigestOk(h) && Conforms(ops) && ops != [] && |items| >= 2
    requires var k, op, child := SplitPoint(|items|), ops[|ops| - 1], FoldOps(h, LeafHash(h, leaf), ops[..|ops| - 1]);
             && 1 <= k < |items|
             && (|| (op == Inner(true, Root(h, items[k..])) && child == Root(h, items[..k]))
                 || (op == Inner(false, Root(h, items[..k])) && child == Root(h, items[k..])))
    ensures t.Clash? ==> t.x != t.y && h(t.x) == h(t.y)
    ensures t.Found? ==> t.index < |items| && items[t.index] == leaf && ops == OpsFor(h, t.index, items)
    decreases |ops|, 0
  {
    var k, n := SplitPoint(|items|), |ops| - 1;
    assert ops == ops[..n] + [ops[n]];
    if ops[n] == Inner(true, Root(h, items[k..])) && FoldOps(h, LeafHash(h, leaf), ops[..n]) == Root(h, items[..k]) {
      t := Follow(h, items[..k], leaf, ops[..n]);
      if t.Found? { OpsSplit(h, t.index, items); }
    } else {
      t := Follow(h, items[k..], leaf, ops[..n]);
      if t.Found? {
        OpsSplit(h, t.index + k, items);
        t := Found(t.index + k);
      }
    }
  }

  lemma LeafPreimage(h: Hash, items: seq<Bytes>, leaf: Bytes)
    requires Preimage(h, items) == [0] + leaf
    ensures items == [leaf]
  {
    PreimageShape(h, items);
    assert ([0] + leaf)[1..] == leaf && ([0] + leaf)[0] == 0;
  }

  /** The leaf an accepted proof leads to carries its key and a value with the same hash. */
  lemma LeafTells(h: Hash, m: KVMap, i: nat, key: Bytes, value: Bytes)
    requires i < |m.Keys| && Leaves(h, m)[i] == Leaf(h, key, value)
    ensures key in m.Keys && key == Sorted(true, m.Keys)[i] && h(m[key]) == h(value)
  {
    var k := Sorted(true, m.Keys)[i];
    assert k in Sorted(true, m.Keys);
    KVBytesInjective(Pair(k, h(m[k])), Pair(key, h(value)));
  }

  /** An accepted existence proof tells the truth about its map, or gives a collision. */
  method FindForgedMembership(h: Hash, m: KVMap, p: Existence) returns (x: Bytes, y: Bytes)
    requires DigestOk(h) && Verifies(h, MapRoot(h, m), p)
    requires !(p.key in m.Keys && m[p.key] == p.value)
    ensures x != y && h(x) == h(y)
  {
    var keys, items := ListLeaves(h, m);
    LeafStepMatches(h, p.key, p.value);
    var t := Follow(h, items, Leaf(h, p.key, p.value), p.path);
    if t.Clash? { return t.x, t.y; }
    LeafTells(h, m, t.index, p.key, p.value);
    return m[p.key], p.value;
  }

  /** Where an accepted side of an absence proof leads. */
  method FollowSide(h: Hash, m: KVMap, p: Existence) returns (t: Trace)
    requires DigestOk(h) && Verifies(h, MapRoot(h, m), p)
    ensures t.Clash? ==> t.x != t.y && h(t.x) == h(t.y)
    ensures t.Found? ==>
              t.index < |m.Keys| && p.key == Sorted(true, m.Keys)[t.index] && p.path == OpsFor(h, t.index, Leaves(h, m))
  {
    var keys, items := ListLeaves(h, m);
    LeafStepMatches(h, p.key, p.value);
    t := Follow(h, items, Leaf(h, p.key, p.value), p.path);
    if t.Found? { LeafTells(h, m, t.index, p.key, p.value); }
  }

  /** No key of the map lies strictly between neighbours, before the first key or after the last one. */
  lemma NothingBetween(m: KVMap, key: Key, i: nat)
    requires key in m.Keys && i < |m.Keys|
    ensures Less(Sorted(true, m.Keys)[i], key) ==> i + 1 < |m.Keys| && !Less(key, Sorted(true, m.Keys)[i + 1])
    ensures Less(key, Sorted(true, m.Keys)[i]) ==> i > 0
  {
    var keys := Sorted(true, m.Keys);
    assert key in keys;
    var j :| 0 <= j < |keys| && keys[j] == key;
    LessIrreflexive(key);
    if j < i { assert Before(true, keys[j], keys[i]); LessAsymmetric(keys[j], keys[i]); }
    if i < j { assert Before(true, keys[i], keys[j]); LessAsymmetric(keys[i], keys[j]); }
    if i + 1 < j { assert Before(true, keys[i + 1], keys[j]); LessAsymmetric(keys[i + 1], keys[j]); }
  }

  /** An accepted proof that a key is absent is true, or gives a collision. */
  method FindForgedAbsence(h: Hash, m: KVMap, key: Key, p: NonExistence) returns (x: Bytes, y: Bytes)
    requires DigestOk(h) && ProvesAbsence(h, MapRoot(h, m), key, p) && key in m.Keys
    ensures x != y && h(x) == h(y)
  {
    var l, r := Found(0), Found(0);
    if p.left.Some? {
      l := FollowSide(h, m, p.left.value);
      if l.Clash? { return l.x, l.y; }
    }
    if p.right.Some? {
      r := FollowSide(h, m, p.right.value);
      if r.Clash? { return r.x, r.y; }
    }
    NeighboursLeaveNoRoom(h, m, key, p, l.index, r.index);
    assert false;
  }

  /** Between neighbours, before the first leaf and after the last one there is no key. */
  lemma NeighboursLeaveNoRoom(h: Hash, m: KVMap, key: Key, p: NonExistence, i: nat, j: nat)
    requires DigestOk(h) && ProvesAbsence(h, MapRoot(h, m), key, p)
    requires p.left.Some? ==>
              && i < |m.Keys| && p.left.value.key == Sorted(true, m.Keys)[i]
              && p.left.value.path == OpsFor(h, i, Leaves(h, m))
    requires p.right.Some? ==>
              && j < |m.Keys| && p.right.value.key == Sorted(true, m.Keys)[j]
              && p.right.value.path == OpsFor(h, j, Leaves(h, m))
    ensures key !in m.Keys
  {
    hide Sorted, OpsFor, Leaves, LeftMost, RightMost, LeftNeighbour, Verifies, MapRoot, Less, DigestOk;
    if p.left.Some? { EndsExact(h, i, Leaves(h, m)); }
    if p.right.Some? { EndsExact(h, j, Leaves(h, m)); }
    if p.left.Some? && p.right.Some? { NeighboursExact(h, i, j, Leaves(h, m)); }
    if key in m.Keys {
      if p.left.Some? { NothingBetween(m, key, i); }
      if p.right.Some? { NothingBetween(m, key, j); }
      assert false;
    }
  }
}

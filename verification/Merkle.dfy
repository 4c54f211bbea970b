/** The Merkle tree of `internal/tree/hash.go` (section 2.1 of RFC 6962), its audit paths (section 2.1.1)
    and their conversion to ICS-23 inner steps in `internal/proofs/convert.go`. The hash function is a
    parameter; nothing is assumed of it but its 32-byte output. */
module Merkle {
  import opened Bytes
  import opened Bits

  type Hash = Bytes -> Bytes

  const DIGEST := 32

  ghost predicate DigestOk(h: Hash) {
    forall x: Bytes :: |h(x)| == DIGEST
  }

  // ----- Splitting -----

  /** `getSplitPoint`. */
  function SplitPoint(length: nat): nat
    requires length >= 1
  {
    var k := Pow2(BitLen(length) - 1);
    if k == length then k / 2 else k
  }

  lemma SplitBounds(length: nat)
    requires length >= 2
    ensures 1 <= SplitPoint(length) < length
  {
    SplitIsLargestPower(length);
  }

  /** The split point is the largest power of two below the length. */
  lemma SplitIsLargestPower(length: nat)
    requires length >= 2
    ensures exists e :: SplitPoint(length) == Pow2(e)
    ensures 1 <= SplitPoint(length) < length <= 2 * SplitPoint(length)
  {
    BitLenBounds(length);
    var e := BitLen(length) - 1;
    if Pow2(e) == length {
      assert e > 0 && Pow2(e) == 2 * Pow2(e - 1);
      assert SplitPoint(length) == Pow2(e - 1);
    } else {
      assert SplitPoint(length) == Pow2(e);
    }
  }

  // ----- Roots -----

  function LeafHash(h: Hash, leaf: Bytes): Bytes { h([0] + leaf) }

  function InnerHash(h: Hash, left: Bytes, right: Bytes): Bytes { h([1] + left + right) }

  /** `hashFromByteSlices`. */
  function Root(h: Hash, items: seq<Bytes>): Bytes
    decreases |items|
  {
    if |items| == 0 then h([])
    else if |items| == 1 then LeafHash(h, items[0])
    else
      var k := SplitPoint(|items|);
      SplitBounds(|items|);
      InnerHash(h, Root(h, items[..k]), Root(h, items[k..]))
  }

  // ----- Audit paths -----

  /** The tree of section 2.1 of RFC 6962: the left half holds the largest power of two that leaves the right half
      something. */
  lemma RootOfHalves(h: Hash, items: seq<Bytes>)
    ensures items == [] ==> Root(h, items) == h([])
    ensures |items| == 1 ==> Root(h, items) == h([0] + items[0])
    ensures |items| >= 2 ==> exists e :: HalvesAt(h, items, e)
  {
    if |items| >= 2 {
      SplitIsLargestPower(|items|);
      var e :| SplitPoint(|items|) == Pow2(e);
      assert HalvesAt(h, items, e);
    }
  }

  ghost predicate HalvesAt(h: Hash, items: seq<Bytes>, e: nat) {
    && Pow2(e) < |items| <= 2 * Pow2(e)
    && Root(h, items) == h([1] + Root(h, items[..Pow2(e)]) + Root(h, items[Pow2(e)..]))
  }

  /** The audit path of section 2.1.1 of RFC 6962, leaf side first. */
  function AuditPath(h: Hash, i: nat, items: seq<Bytes>): seq<Bytes>
    requires i < |items|
    decreases |items|
  {
    if |items| == 1 then []
    else
      var k := SplitPoint(|items|);
      SplitBounds(|items|);
      if i < k then AuditPath(h, i, items[..k]) + [Root(h, items[k..])]
      else AuditPath(h, i - k, items[k..]) + [Root(h, items[..k])]
  }

  /** `buildPath`: per level, leaf side first, whether the index lies on the left. */
  function BuildPath(i: int, total: nat): seq<bool>
    decreases total
  {
    if total < 2 then []
    else
      var k := SplitPoint(total);
      SplitBounds(total);
      if i < k then BuildPath(i, k) + [true] else BuildPath(i - k, total - k) + [false]
  }

  /** An ICS-23 inner step: hash(prefix ++ child ++ suffix). */
  datatype InnerOp = InnerOp(prefix: Bytes, suffix: Bytes)

  /** The aunt goes to the right of an index that lies on the left, and to the left otherwise. */
  function Inner(auntRight: bool, aunt: Bytes): InnerOp {
    if auntRight then InnerOp([1], aunt) else InnerOp([1] + aunt, [])
  }

  function InnerOps(aunts: seq<Bytes>, path: seq<bool>): (ops: seq<InnerOp>)
    requires |aunts| == |path|
    ensures |ops| == |aunts|
  {
    seq(|aunts|, j requires 0 <= j < |aunts| => Inner(path[j], aunts[j]))
  }

  /** `convertInnerOps`: None is the error for a path of another length. */
  method ConvertInnerOps(aunts: seq<Bytes>, index: int, total: nat) returns (r: Option<seq<InnerOp>>)
    ensures r.None? <==> |aunts| != |BuildPath(index, total)|
    ensures r.Some? ==> r.value == InnerOps(aunts, BuildPath(index, total))
  {
    var path := BuildPath(index, total);
    if |aunts| != |path| { return None; }
    var inners: seq<InnerOp> := [];
    while |inners| < |aunts|
      invariant |inners| <= |aunts| && inners == InnerOps(aunts, path)[..|inners|]
    {
      inners := inners + [Inner(path[|inners|], aunts[|inners|])];
    }
    r := Some(inners);
  }

  function Apply(h: Hash, op: InnerOp, child: Bytes): Bytes {
    h(op.prefix + child + op.suffix)
  }

  /** Applies the steps from the leaf towards the root. */
  function FoldOps(h: Hash, leaf: Bytes, ops: seq<InnerOp>): Bytes {
    if ops == [] then leaf else Apply(h, ops[|ops| - 1], FoldOps(h, leaf, ops[..|ops| - 1]))
  }

  /** The steps from leaf `i` to the root: the steps within its half, then the step at the split. */
  ghost function OpsFor(h: Hash, i: nat, items: seq<Bytes>): seq<InnerOp>
    requires i < |items|
    decreases |items|
  {
    if |items| == 1 then []
    else
      var k := SplitPoint(|items|);
      SplitBounds(|items|);
      if i < k then OpsFor(h, i, items[..k]) + [Inner(true, Root(h, items[k..]))]
      else OpsFor(h, i - k, items[k..]) + [Inner(false, Root(h, items[..k]))]
  }

  /** These aunts, converted along this path, give these steps. */
  ghost predicate Converts(aunts: seq<Bytes>, path: seq<bool>, ops: seq<InnerOp>) {
    |path| == |aunts| && InnerOps(aunts, path) == ops
  }

  /** The built path is as long as the audit path, and converting one along the other gives these steps. */
  lemma {:induction false} ConvertedAreSteps(h: Hash, i: nat, items: seq<Bytes>)
    requires i < |items|
    ensures Converts(AuditPath(h, i, items), BuildPath(i, |items|), OpsFor(h, i, items))
    decreases |items|
  {
    if |items| > 1 {
      var k := SplitPoint(|items|);
      SplitBounds(|items|);
      if i < k {
        ConvertedAreSteps(h, i, items[..k]);
        ConvertedLeft(h, i, items, k);
      } else {
        ConvertedAreSteps(h, i - k, items[k..]);
        ConvertedRight(h, i, items, k);
      }
    }
  }

  lemma ConvertedLeft(h: Hash, i: nat, items: seq<Bytes>, k: nat)
    requires |items| >= 2 && k == SplitPoint(|items|) && i < k < |items|
    requires Converts(AuditPath(h, i, items[..k]), BuildPath(i, k), OpsFor(h, i, items[..k]))
    ensures Converts(AuditPath(h, i, items), BuildPath(i, |items|), OpsFor(h, i, items))
  {
    AppendStep(AuditPath(h, i, items[..k]), BuildPath(i, k), OpsFor(h, i, items[..k]), Root(h, items[k..]), true);
  }

  lemma ConvertedRight(h: Hash, i: nat, items: seq<Bytes>, k: nat)
    requires |items| >= 2 && k == SplitPoint(|items|) && 1 <= k <= i < |items|
    requires Converts(AuditPath(h, i - k, items[k..]), BuildPath(i - k, |items| - k), OpsFor(h, i - k, items[k..]))
    ensures Converts(AuditPath(h, i, items), BuildPath(i, |items|), OpsFor(h, i, items))
  {
    AppendStep(AuditPath(h, i - k, items[k..]), BuildPath(i - k, |items| - k), OpsFor(h, i - k, items[k..]),
               Root(h, items[..k]), false);
  }

  /** The steps of a longer list end in the step at its split. */
  lemma OpsSplit(h: Hash, i: nat, items: seq<Bytes>)
    requires i < |items| && |items| >= 2
    ensures var k := SplitPoint(|items|);
            && 1 <= k < |items|
            && OpsFor(h, i, items) == if i < k then OpsFor(h, i, items[..k]) + [Inner(true, Root(h, items[k..]))]
                                      else OpsFor(h, i - k, items[k..]) + [Inner(false, Root(h, items[..k]))]
  {
    SplitBounds(|items|);
  }

  lemma AppendStep(aunts: seq<Bytes>, path: seq<bool>, ops: seq<InnerOp>, aunt: Bytes, right: bool)
    requires Converts(aunts, path, ops)
    ensures Converts(aunts + [aunt], path + [right], ops + [Inner(right, aunt)])
  {
  }

  /** Folding the converted steps of any leaf from its leaf hash gives the root. */
  lemma {:induction false} FoldIsRoot(h: Hash, i: nat, items: seq<Bytes>)
    requires i < |items|
    ensures FoldOps(h, LeafHash(h, items[i]), OpsFor(h, i, items)) == Root(h, items)
    decreases |items|
  {
    if |items| > 1 {
      var k := SplitPoint(|items|);
      OpsSplit(h, i, items);
      if i < k {
        FoldIsRoot(h, i, items[..k]);
        FoldLast(h, LeafHash(h, items[i]), OpsFor(h, i, items[..k]), Inner(true, Root(h, items[k..])));
      } else {
        FoldIsRoot(h, i - k, items[k..]);
        FoldLast(h, LeafHash(h, items[i]), OpsFor(h, i - k, items[k..]), Inner(false, Root(h, items[..k])));
        assert [1] + Root(h, items[..k]) + Root(h, items[k..]) + [] == [1] + Root(h, items[..k]) + Root(h, items[k..]);
      }
    }
  }

  /** Hence the prefix/suffix steps of `convertInnerOps` lead from the leaf hash to the root. */
  lemma ConvertedFoldToRoot(h: Hash, i: nat, items: seq<Bytes>)
    requires i < |items|
    ensures |BuildPath(i, |items|)| == |AuditPath(h, i, items)|
    ensures FoldOps(h, LeafHash(h, items[i]), InnerOps(AuditPath(h, i, items), BuildPath(i, |items|))) == Root(h, items)
  {
    ConvertedAreSteps(h, i, items);
    FoldIsRoot(h, i, items);
  }

  lemma FoldLast(h: Hash, leaf: Bytes, ops: seq<InnerOp>, op: InnerOp)
    ensures FoldOps(h, leaf, ops + [op]) == Apply(h, op, FoldOps(h, leaf, ops))
  {
    assert (ops + [op])[..|ops|] == ops;
  }

  // ----- Neighbours, as ICS-23 checks them -----

  /** The child is the left (right) one of the step, judged by the step's shape alone. */
  predicate IsLeftChild(op: InnerOp) { |op.prefix| == 1 && |op.suffix| == DIGEST }
  predicate IsRightChild(op: InnerOp) { |op.prefix| == 1 + DIGEST && |op.suffix| == 0 }

  ghost predicate LeftMost(ops: seq<InnerOp>) { forall j :: 0 <= j < |ops| ==> IsLeftChild(ops[j]) }
  ghost predicate RightMost(ops: seq<InnerOp>) { forall j :: 0 <= j < |ops| ==> IsRightChild(ops[j]) }

  /** Drop the common steps at the root, then a left/right step, then rightmost versus leftmost. */
  ghost predicate LeftNeighbour(a: seq<InnerOp>, b: seq<InnerOp>) {
    a != [] && b != [] &&
    var x, y := a[|a| - 1], b[|b| - 1];
    var a', b' := a[..|a| - 1], b[..|b| - 1];
    if x == y then LeftNeighbour(a', b')
    else IsLeftChild(x) && IsRightChild(y) && RightMost(a') && LeftMost(b')
  }

  lemma SnocMost(ops: seq<InnerOp>, op: InnerOp)
    ensures LeftMost(ops + [op]) <==> LeftMost(ops) && IsLeftChild(op)
    ensures RightMost(ops + [op]) <==> RightMost(ops) && IsRightChild(op)
  {
    var all := ops + [op];
    assert all[|ops|] == op;
    if LeftMost(all) { forall j | 0 <= j < |ops| ensures IsLeftChild(ops[j]) { assert all[j] == ops[j]; } }
    if RightMost(all) { forall j | 0 <= j < |ops| ensures IsRightChild(ops[j]) { assert all[j] == ops[j]; } }
  }

  lemma RootLength(h: Hash, items: seq<Bytes>)
    requires DigestOk(h)
    ensures |Root(h, items)| == DIGEST
  {
  }

  lemma NoSteps(h: Hash, i: nat, items: seq<Bytes>)
    requires i < |items| == 1
    ensures OpsFor(h, i, items) == []
  {
  }

  /** Only the first leaf is all-left and only the last is all-right. */
  lemma {:induction false} EndsExact(h: Hash, i: nat, items: seq<Bytes>)
    requires DigestOk(h) && i < |items|
    ensures LeftMost(OpsFor(h, i, items)) <==> i == 0
    ensures RightMost(OpsFor(h, i, items)) <==> i == |items| - 1
    decreases |items|
  {
    if |items| == 1 {
      NoSteps(h, i, items);
    } else {
      hide OpsFor, LeftMost, RightMost, Root, SplitPoint, DigestOk;
      var k := SplitPoint(|items|);
      OpsSplit(h, i, items);
      if i < k {
        RootLength(h, items[k..]);
        EndsExact(h, i, items[..k]);
        SnocMost(OpsFor(h, i, items[..k]), Inner(true, Root(h, items[k..])));
      } else {
        RootLength(h, items[..k]);
        EndsExact(h, i - k, items[k..]);
        SnocMost(OpsFor(h, i - k, items[k..]), Inner(false, Root(h, items[..k])));
      }
    }
  }

  lemma NeighbourStep(a: seq<InnerOp>, x: InnerOp, b: seq<InnerOp>, y: InnerOp)
    ensures LeftNeighbour(a + [x], b + [y])
       <==> if x == y then LeftNeighbour(a, b) else IsLeftChild(x) && IsRightChild(y) && RightMost(a) && LeftMost(b)
  {
    assert (a + [x])[..|a|] == a && (b + [y])[..|b|] == b;
  }

  lemma NoStepsNoNeighbour(b: seq<InnerOp>)
    ensures !LeftNeighbour([], b)
  {
  }

  /** The proofs of two leaves of one tree pass the neighbour check exactly when the leaves are consecutive. */
  lemma {:induction false} NeighboursExact(h: Hash, i: nat, j: nat, items: seq<Bytes>)
    requires DigestOk(h) && i < |items| && j < |items|
    ensures LeftNeighbour(OpsFor(h, i, items), OpsFor(h, j, items)) <==> j == i + 1
    decreases |items|
  {
    hide OpsFor, LeftNeighbour, LeftMost, RightMost, SplitPoint, DigestOk, Top;
    if |items| == 1 {
      NoSteps(h, i, items);
      NoStepsNoNeighbour(OpsFor(h, j, items));
    } else {
      var k := SplitPoint(|items|);
      SplitBounds(|items|);
      NeighbourAtSplit(h, i, j, items, k);
      if i < k && j < k {
        NeighboursExact(h, i, j, items[..k]);
      } else if i >= k && j >= k {
        NeighboursExact(h, i - k, j - k, items[k..]);
      } else if i < k {
        EndsExact(h, i, items[..k]);
        EndsExact(h, j - k, items[k..]);
      }
    }
  }

  /** The steps below the split of a list at `k`. */
  ghost function Rest(h: Hash, i: nat, items: seq<Bytes>, k: nat): seq<InnerOp>
    requires i < |items| && 1 <= k < |items|
  {
    if i < k then OpsFor(h, i, items[..k]) else OpsFor(h, i - k, items[k..])
  }

  ghost function Top(h: Hash, i: nat, items: seq<Bytes>, k: nat): InnerOp
    requires i < |items| && 1 <= k < |items|
  {
    if i < k then Inner(true, Root(h, items[k..])) else Inner(false, Root(h, items[..k]))
  }

  lemma NeighbourAtSplit(h: Hash, i: nat, j: nat, items: seq<Bytes>, k: nat)
    requires DigestOk(h) && i < |items| && j < |items| && |items| >= 2 && k == SplitPoint(|items|) && 1 <= k < |items|
    ensures LeftNeighbour(OpsFor(h, i, items), OpsFor(h, j, items))
       <==> if (i < k) == (j < k) then LeftNeighbour(Rest(h, i, items, k), Rest(h, j, items, k))
            else i < k && RightMost(Rest(h, i, items, k)) && LeftMost(Rest(h, j, items, k))
  {
    OpsSplit(h, i, items);
    OpsSplit(h, j, items);
    NeighbourStep(Rest(h, i, items, k), Top(h, i, items, k), Rest(h, j, items, k), Top(h, j, items, k));
    TopShape(h, i, items, k);
    TopShape(h, j, items, k);
  }

  lemma TopShape(h: Hash, i: nat, items: seq<Bytes>, k: nat)
    requires DigestOk(h) && i < |items| && 1 <= k < |items|
    ensures IsLeftChild(Top(h, i, items, k)) <==> i < k
    ensures IsRightChild(Top(h, i, items, k)) <==> i >= k
  {
    RootLength(h, items[..k]);
    RootLength(h, items[k..]);
  }

  // ----- Binding -----

  /** What is hashed to obtain the root. */
  function Preimage(h: Hash, items: seq<Bytes>): Bytes {
    if |items| == 0 then []
    else if |items| == 1 then [0] + items[0]
    else
      var k := SplitPoint(|items|);
      SplitBounds(|items|);
      [1] + Root(h, items[..k]) + Root(h, items[k..])
  }

  lemma PreimageShape(h: Hash, items: seq<Bytes>)
    ensures |items| == 0 ==> items == [] && Preimage(h, items) == []
    ensures |items| == 1 ==>
              items == [items[0]] && Preimage(h, items) == [0] + items[0] && Preimage(h, items)[1..] == items[0]
    ensures |items| >= 2 ==> Preimage(h, items) != [] && Preimage(h, items)[0] == 1
  {
  }

  /** Leaves and inner nodes are domain-separated, so equal preimages of longer lists split alike. */
  lemma SamePreimage(h: Hash, a: seq<Bytes>, b: seq<Bytes>)
    requires DigestOk(h) && Preimage(h, a) == Preimage(h, b) && a != b
    ensures |a| >= 2 && |b| >= 2
    ensures var j, k := SplitPoint(|a|), SplitPoint(|b|);
            && 1 <= j < |a| && 1 <= k < |b|
            && Root(h, a[..j]) == Root(h, b[..k]) && Root(h, a[j..]) == Root(h, b[k..])
  {
    var p, q := Preimage(h, a), Preimage(h, b);
    PreimageShape(h, a);
    PreimageShape(h, b);
    assert |a| < 2 || |b| < 2 ==> a == b;
    SplitBounds(|a|);
    SplitBounds(|b|);
    var j, k := SplitPoint(|a|), SplitPoint(|b|);
    RootLength(h, a[..j]);
    RootLength(h, b[..k]);
    assert p[1..33] == Root(h, a[..j]) && q[1..33] == Root(h, b[..k]);
    assert p[33..] == Root(h, a[j..]) && q[33..] == Root(h, b[k..]);
  }

  lemma HalvesDiffer(a: seq<Bytes>, b: seq<Bytes>, j: nat, k: nat)
    requires a != b && j <= |a| && k <= |b|
    ensures a[..j] != b[..k] || a[j..] != b[k..]
  {
    assert a == a[..j] + a[j..] && b == b[..k] + b[k..];
  }

  lemma RootIsHash(h: Hash, items: seq<Bytes>)
    ensures Root(h, items) == h(Preimage(h, items))
  {
  }

  /** From two different leaf lists with one root, two different strings with one hash. */
  method FindCollision(h: Hash, a: seq<Bytes>, b: seq<Bytes>) returns (x: Bytes, y: Bytes)
    requires DigestOk(h) && a != b && Root(h, a) == Root(h, b)
    ensures x != y && h(x) == h(y)
    decreases |a|
  {
    x, y := Preimage(h, a), Preimage(h, b);
    if x != y {
      RootIsHash(h, a);
      RootIsHash(h, b);
      return;
    }
    SamePreimage(h, a, b);
    var j, k := SplitPoint(|a|), SplitPoint(|b|);
    HalvesDiffer(a, b, j, k);
    if a[..j] != b[..k] {
      x, y := FindCollision(h, a[..j], b[..k]);
    } else {
      x, y := FindCollision(h, a[j..], b[k..]);
    }
  }
}

/** The pruning manager (`pruning/manager.go`): which heights may be pruned while snapshots complete
    asynchronously, with crashes and reloads in between. */
module Pruning {
  import opened Bytes
  import opened Words

  datatype Strategy = Default | Everything | Nothing | Custom | Undefined
  datatype Options = Options(keepRecent: uint64, interval: uint64, strategy: Strategy)

  /** `heights` is `pruneSnapshotHeights`; `stored` is the database entry, empty when never written. */
  datatype State = State(opts: Options, heights: seq<int64>, stored: Bytes)

  // ---------- sorting ----------

  predicate Ascending(s: seq<int64>) {
    forall i, j :: 0 <= i < j < |s| ==> s[i] <= s[j]
  }

  function Insert(x: int64, s: seq<int64>): seq<int64> {
    if s == [] || x <= s[0] then [x] + s else [s[0]] + Insert(x, s[1..])
  }

  /** The effect of `sort.Slice` on a slice of numbers. */
  function SortHeights(s: seq<int64>): seq<int64> {
    if s == [] then [] else Insert(s[0], SortHeights(s[1..]))
  }

  lemma {:induction false} InsertMembers(x: int64, s: seq<int64>)
    ensures multiset(Insert(x, s)) == multiset(s) + multiset{x}
  {
    if s != [] && s[0] < x {
      InsertMembers(x, s[1..]);
      assert s == [s[0]] + s[1..];
    }
  }

  lemma {:induction false} InsertSorts(x: int64, s: seq<int64>)
    requires Ascending(s)
    ensures Ascending(Insert(x, s))
  {
    if s != [] && s[0] < x {
      InsertSorts(x, s[1..]);
      InsertMembers(x, s[1..]);
      var t := Insert(x, s[1..]);
      forall j | 0 <= j < |t| ensures s[0] <= t[j] {
        assert t[j] in multiset(t);
        assert t[j] in multiset(s[1..]) || t[j] == x;
        assert t[j] in s[1..] ==> s[0] <= t[j];
      }
      AscendingCons(s[0], t);
    }
  }

  lemma AscendingCons(x: int64, t: seq<int64>)
    requires Ascending(t) && forall j :: 0 <= j < |t| ==> x <= t[j]
    ensures Ascending([x] + t)
  {
  }

  lemma {:induction false} SortHeightsSorts(s: seq<int64>)
    ensures Ascending(SortHeights(s)) && multiset(SortHeights(s)) == multiset(s)
  {
    if s != [] {
      SortHeightsSorts(s[1..]);
      InsertSorts(s[0], SortHeights(s[1..]));
      InsertMembers(s[0], SortHeights(s[1..]));
      assert s == [s[0]] + s[1..];
    }
  }

  lemma SortHeightsMembers(s: seq<int64>)
    ensures Ascending(SortHeights(s)) && |SortHeights(s)| == |s| && forall x :: x in SortHeights(s) <==> x in s
  {
    SortHeightsSorts(s);
    assert |multiset(SortHeights(s))| == |multiset(s)|;
    forall x ensures x in SortHeights(s) <==> x in s {
      assert x in SortHeights(s) <==> x in multiset(SortHeights(s));
      assert x in s <==> x in multiset(s);
    }
  }

  // ---------- the database entry ----------

  datatype Loaded = Heights(heights: seq<int64>) | NegativeHeight(height: int64) | Truncated

  function EncodeHeights(hs: seq<int64>): Bytes {
    if hs == [] then [] else BigEndian(Uint64(hs[0]), 8) + EncodeHeights(hs[1..])
  }

  function DecodeHeights(b: Bytes): Loaded {
    if b == [] then Heights([])
    else if |b| < 8 then Truncated
    else
      var h := Int64(FromBigEndian(b[..8]));
      if h < 0 then NegativeHeight(h)
      else match DecodeHeights(b[8..])
        case Heights(hs) => Heights([h] + hs)
        case other => other
  }

  /** The entry is one big-endian word of eight bytes for each height, in the order of the list. */
  lemma {:induction false} StoredLayout(hs: seq<int64>, i: nat)
    requires i < |hs|
    ensures |EncodeHeights(hs)| == 8 * |hs| && EncodeHeights(hs)[8 * i..8 * i + 8] == BigEndian(Uint64(hs[i]), 8)
  {
    var word, rest := BigEndian(Uint64(hs[0]), 8), EncodeHeights(hs[1..]);
    if |hs| > 1 { StoredLayout(hs[1..], if i == 0 then 0 else i - 1); }
    if i > 0 { assert (word + rest)[8 * i..8 * i + 8] == rest[8 * (i - 1)..8 * (i - 1) + 8]; }
  }

  lemma WordRoundTrip(h: int64)
    ensures Int64(FromBigEndian(BigEndian(Uint64(h), 8))) == h
  {
    WordSizes();
    BigEndianRoundTrip(Uint64(h), 8);
    Int64OfUint64(h);
  }

  /** Reading back what was written gives the list, unless it holds a negative height: then the first one is
      reported. */
  lemma {:induction false} HeightsRoundTrip(hs: seq<int64>)
    ensures DecodeHeights(EncodeHeights(hs)) == FirstNegative(hs)
  {
    if hs != [] {
      WordRoundTrip(hs[0]);
      var w, rest := BigEndian(Uint64(hs[0]), 8), EncodeHeights(hs[1..]);
      assert (w + rest)[..8] == w && (w + rest)[8..] == rest;
      HeightsRoundTrip(hs[1..]);
    }
  }

  function FirstNegative(hs: seq<int64>): Loaded {
    if hs == [] then Heights([])
    else if hs[0] < 0 then NegativeHeight(hs[0])
    else match FirstNegative(hs[1..])
      case Heights(rest) => Heights(hs)
      case other => other
  }

  lemma {:induction false} NoNegative(hs: seq<int64>)
    requires forall i :: 0 <= i < |hs| ==> hs[i] >= 0
    ensures FirstNegative(hs) == Heights(hs)
  {
    if hs != [] { NoNegative(hs[1..]); }
  }

  // ---------- one delivered snapshot, one query ----------

  /** `height + int64(interval)` in 64-bit arithmetic. */
  function Plus(height: int64, interval: uint64): int64 {
    Int64(height + Int64(interval))
  }

  /** `height - 1 - int64(keepRecent)` in 64-bit arithmetic. */
  function Recent(height: int64, keepRecent: uint64): int64 {
    Int64(Int64(height - 1) - Int64(keepRecent))
  }

  /** Drops leading heights as long as the next one is exactly one interval further. */
  function Trim(hs: seq<int64>, interval: uint64): seq<int64> {
    if |hs| >= 2 && hs[1] == Plus(hs[0], interval) then Trim(hs[1..], interval) else hs
  }

  function Handled(s: State, interval: uint64, height: int64): State {
    if s.opts.strategy == Nothing || height <= 0 then s
    else
      var hs := Trim(SortHeights(s.heights + [height]), interval);
      s.(heights := hs, stored := EncodeHeights(hs))
  }

  function PruningHeight(s: State, interval: uint64, height: int64): int64 {
    if s.opts.strategy == Nothing || s.opts.interval == 0 then 0
    else if height % Int64(s.opts.interval) != 0 || height <= Int64(s.opts.keepRecent) then 0
    else
      var recent := Recent(height, s.opts.keepRecent);
      if interval == 0 then recent
      else if s.heights == [] then 0
      else
        var snapshot := Int64(Plus(s.heights[0], interval) - 1);
        if snapshot < recent then snapshot else recent
  }

  function Reloaded(s: State): State {
    if s.opts.strategy == Nothing then s
    else match DecodeHeights(s.stored)
      case Heights(hs) => if hs == [] then s else s.(heights := hs)
      case _ => s
  }

  const INITIAL_OPTIONS := Options(0, 0, Nothing)

  /** The manager: the fields of the source's struct, with its database entry. */
  class Manager {
    var opts: Options
    var snapshotInterval: uint64
    var pruneSnapshotHeights: seq<int64>
    var stored: Bytes

    ghost function Model(): State
      reads this
    {
      State(opts, pruneSnapshotHeights, stored)
    }

    constructor (db: Bytes)
      ensures Model() == State(INITIAL_OPTIONS, [0], db) && snapshotInterval == 0
    {
      opts, snapshotInterval, pruneSnapshotHeights, stored := INITIAL_OPTIONS, 0, [0], db;
    }

    method HandleSnapshotHeight(height: int64)
      modifies this`pruneSnapshotHeights, this`stored
      ensures Model() == Handled(old(Model()), snapshotInterval, height)
    {
      if opts.strategy == Nothing || height <= 0 { return; }
      pruneSnapshotHeights := pruneSnapshotHeights + [height];
      pruneSnapshotHeights := SortHeights(pruneSnapshotHeights);
      SortHeightsMembers(old(pruneSnapshotHeights) + [height]);
      ghost var sorted := pruneSnapshotHeights;
      var k := 1;
      while k < |pruneSnapshotHeights|
        invariant 1 <= k <= |sorted| && pruneSnapshotHeights == sorted && stored == old(stored)
        invariant Trim(sorted[k - 1..], snapshotInterval) == Trim(sorted, snapshotInterval)
      {
        if pruneSnapshotHeights[k] != Plus(pruneSnapshotHeights[k - 1], snapshotInterval) {
          break;
        }
        assert sorted[k - 1..][1..] == sorted[k..];
        k := k + 1;
      }
      assert Trim(sorted[k - 1..], snapshotInterval) == sorted[k - 1..];
      pruneSnapshotHeights := pruneSnapshotHeights[k - 1..];
      stored := HeightsToBytes(pruneSnapshotHeights);
    }

    method GetPruningHeight(height: int64) returns (pruneTo: int64)
      ensures pruneTo == PruningHeight(Model(), snapshotInterval, height)
    {
      if opts.strategy == Nothing { return 0; }
      if opts.interval <= 0 { return 0; }
      if height % Int64(opts.interval) != 0 || height <= Int64(opts.keepRecent) { return 0; }
      var pruneHeight := Recent(height, opts.keepRecent);
      if snapshotInterval <= 0 { return pruneHeight; }
      if |pruneSnapshotHeights| == 0 { return 0; }
      var snHeight := Int64(Plus(pruneSnapshotHeights[0], snapshotInterval) - 1);
      if snHeight < pruneHeight { return snHeight; }
      return pruneHeight;
    }

    /** `failed` is the error; `unreadable` says that the database cannot be read, and a truncated entry makes the
        source index out of range. */
    method LoadSnapshotHeights(unreadable: bool) returns (failed: bool)
      modifies this`pruneSnapshotHeights
      ensures Model() == if unreadable then old(Model()) else Reloaded(old(Model()))
      ensures failed <==> opts.strategy != Nothing && (unreadable || !DecodeHeights(stored).Heights?)
      ensures failed ==> Model() == old(Model())
    {
      if opts.strategy == Nothing { return false; }
      if unreadable { return true; }
      var loaded := HeightsFromBytes(stored);
      if !loaded.Heights? { return true; }
      if |loaded.heights| > 0 { pruneSnapshotHeights := loaded.heights; }
      return false;
    }
  }

  method HeightsToBytes(hs: seq<int64>) returns (b: Bytes)
    ensures b == EncodeHeights(hs)
  {
    b := [];
    for i := 0 to |hs|
      invariant b + EncodeHeights(hs[i..]) == EncodeHeights(hs)
    {
      b := b + BigEndian(Uint64(hs[i]), 8);
      assert hs[i..][1..] == hs[i + 1..];
    }
  }

  function Prepend(hs: seq<int64>, r: Loaded): Loaded {
    match r
    case Heights(t) => Heights(hs + t)
    case other => other
  }

  method HeightsFromBytes(b: Bytes) returns (r: Loaded)
    ensures r == DecodeHeights(b)
  {
    var hs, offset := [], 0;
    while offset < |b|
      invariant 0 <= offset <= |b|
      invariant DecodeHeights(b) == Prepend(hs, DecodeHeights(b[offset..]))
    {
      if offset + 8 > |b| { return Truncated; }
      assert b[offset..][..8] == b[offset..offset + 8] && b[offset..][8..] == b[offset + 8..];
      var h := Int64(FromBigEndian(b[offset..offset + 8]));
      if h < 0 { return NegativeHeight(h); }
      ghost var rest := DecodeHeights(b[offset + 8..]);
      assert rest.Heights? ==> hs + ([h] + rest.heights) == hs + [h] + rest.heights;
      hs, offset := hs + [h], offset + 8;
    }
    r := Heights(hs);
  }
}

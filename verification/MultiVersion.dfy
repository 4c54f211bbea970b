/** The shared state of `multiversion.Store`: versions per key, and per transaction index the
    recorded writeset keys, readset and iterateset. Each operation of the store is given here as a
    function of the whole state; the module MultiVersionStore runs them in place. */
module MultiVersion {
  import opened Bytes
  import opened VersionedItem
  import opened MergeIterator

  type ReadSet = map<Key, seq<Option<Bytes>>>

  /** `iterationTracker`. */
  datatype Tracker = Tracker(range: Range, ascending: bool, writeset: WriteSet,
                             iteratedKeys: set<Key>, earlyStop: Option<Key>)

  datatype Shared = Shared(
    versions: map<Key, Item>,
    writesetKeys: map<nat, seq<Key>>,
    readsets: map<nat, ReadSet>,
    iteratesets: map<nat, seq<Tracker>>)

  const Fresh := Shared(map[], map[], map[], map[])

  function ItemAt(s: Shared, k: Key): Item {
    if k in s.versions then s.versions[k] else map[]
  }

  /** Index `i` holds a version of `k`. */
  predicate Holds(s: Shared, i: nat, k: Key) {
    i in ItemAt(s, k)
  }

  /** Index `i` has recorded `k` as one of its writeset keys. */
  predicate Recorded(s: Shared, i: nat, k: Key) {
    i in s.writesetKeys && k in s.writesetKeys[i]
  }

  /** Bookkeeping invariant: versions and recorded writeset keys agree, key lists are sorted. */
  ghost predicate Inv(s: Shared) {
    && (forall i: nat, k: Key :: Holds(s, i, k) <==> Recorded(s, i, k))
    && (forall i: nat :: i in s.writesetKeys ==> Ordered(true, s.writesetKeys[i]))
    && (forall k: Key :: WellIndexed(ItemAt(s, k)))
  }

  // ----- Operations -----

  function Without(item: Item, i: nat, drop: bool): Item {
    if drop then item - {i} else item
  }

  /** `removeOldWriteset`: keys that the new writeset overwrites anyway are left in place. */
  function RemoveOldWriteset(s: Shared, i: nat, keep: set<Key>): Shared {
    s.(versions := map k | k in s.versions :: Without(s.versions[k], i, Recorded(s, i, k) && k !in keep),
       writesetKeys := s.writesetKeys - {i})
  }

  /** Stores one new version of each key in `news`. */
  function PutAll(s: Shared, news: map<Key, ValueItem>): Shared {
    s.(versions := map k | k in s.versions.Keys + news.Keys ::
         if k in news then ItemAt(s, k)[news[k].index := news[k]] else ItemAt(s, k))
  }

  /** The common part of the two publishing operations. */
  ghost function Replace(s: Shared, i: nat, news: map<Key, ValueItem>): Shared {
    PutAll(RemoveOldWriteset(s, i, news.Keys), news).(writesetKeys := s.writesetKeys[i := Sorted(true, news.Keys)])
  }

  /** The version a publication leaves for a written value. */
  function Published(i: nat, incarnation: int, value: Option<Bytes>): ValueItem {
    if value.None? then NewDeletedItem(i, incarnation) else NewValueItem(i, incarnation, value.value)
  }

  function PublishedItems(i: nat, incarnation: int, ws: WriteSet): map<Key, ValueItem> {
    map k | k in ws :: Published(i, incarnation, ws[k])
  }

  function EstimateItems(i: nat, incarnation: int, ks: set<Key>): map<Key, ValueItem> {
    map k | k in ks :: NewEstimateItem(i, incarnation)
  }

  ghost function SetWriteset(s: Shared, i: nat, incarnation: int, ws: WriteSet): Shared {
    Replace(s, i, PublishedItems(i, incarnation, ws))
  }

  ghost function SetEstimatedWriteset(s: Shared, i: nat, incarnation: int, ws: WriteSet): Shared {
    Replace(s, i, EstimateItems(i, incarnation, ws.Keys))
  }

  function InvalidateWriteset(s: Shared, i: nat, incarnation: int): Shared {
    if i !in s.writesetKeys then s
    else PutAll(s, EstimateItems(i, incarnation, Elements(s.writesetKeys[i])))
  }

  predicate AllAtIndex(news: map<Key, ValueItem>, i: nat) {
    forall k :: k in news ==> news[k].index == i
  }

  lemma ReplaceItem(s: Shared, i: nat, news: map<Key, ValueItem>, k: Key)
    requires (Holds(s, i, k) ==> Recorded(s, i, k)) && AllAtIndex(news, i)
    ensures ItemAt(Replace(s, i, news), k) == ReplacedItem(s, i, news, k)
  {
    var r := RemoveOldWriteset(s, i, news.Keys);
    RemovedItem(s, i, news.Keys, k);
    PutItem(r, news, k);
    assert ItemAt(Replace(s, i, news), k) == ItemAt(PutAll(r, news), k);
  }

  lemma RemovedItem(s: Shared, i: nat, keep: set<Key>, k: Key)
    requires Holds(s, i, k) ==> Recorded(s, i, k)
    ensures ItemAt(RemoveOldWriteset(s, i, keep), k) == if k in keep then ItemAt(s, k) else ItemAt(s, k) - {i}
  {
    if k !in keep && !Recorded(s, i, k) { assert ItemAt(s, k) - {i} == ItemAt(s, k); }
  }

  lemma PutItem(s: Shared, news: map<Key, ValueItem>, k: Key)
    ensures ItemAt(PutAll(s, news), k) == if k in news then ItemAt(s, k)[news[k].index := news[k]] else ItemAt(s, k)
  {
  }

  function ReplacedItem(s: Shared, i: nat, news: map<Key, ValueItem>, k: Key): Item {
    if k in news then ItemAt(s, k)[i := news[k]] else ItemAt(s, k) - {i}
  }

  /** A publication at `i` leaves exactly its own keys at `i` and touches no other index. */
  lemma ReplaceEffect(s: Shared, i: nat, news: map<Key, ValueItem>, t: Shared)
    requires Inv(s) && AllAtIndex(news, i) && t == Replace(s, i, news)
    ensures Inv(t) && SameExcept(s, t, i)
    ensures HoldsExactly(t, i, news)
  {
    forall k: Key ensures ItemAt(t, k) == ReplacedItem(s, i, news, k) {
      assert Holds(s, i, k) <==> Recorded(s, i, k);
      ReplaceItem(s, i, news, k);
    }
    assert t.writesetKeys == s.writesetKeys[i := Sorted(true, news.Keys)];
    ReplaceKeepsInv(s, i, news, t);
    ReplaceKeepsRest(s, i, news, t);
  }

  lemma ReplaceKeepsRest(s: Shared, i: nat, news: map<Key, ValueItem>, t: Shared)
    requires forall k: Key :: ItemAt(t, k) == ReplacedItem(s, i, news, k)
    ensures SameExcept(s, t, i)
    ensures HoldsExactly(t, i, news)
  {
  }

  lemma ReplaceKeepsInv(s: Shared, i: nat, news: map<Key, ValueItem>, t: Shared)
    requires Inv(s) && AllAtIndex(news, i)
    requires forall k: Key :: ItemAt(t, k) == ReplacedItem(s, i, news, k)
    requires t.writesetKeys == s.writesetKeys[i := Sorted(true, news.Keys)]
    ensures Inv(t)
  {
    forall k: Key ensures WellIndexed(ItemAt(t, k)) { assert WellIndexed(ItemAt(s, k)); }
    forall j: nat, k: Key ensures Holds(t, j, k) <==> Recorded(t, j, k) {
      assert Holds(s, j, k) <==> Recorded(s, j, k);
      assert ItemAt(t, k) == ReplacedItem(s, i, news, k);
    }
  }

  /** The versions at `i` are exactly `news`. */
  ghost predicate HoldsExactly(t: Shared, i: nat, news: map<Key, ValueItem>) {
    && (forall k: Key :: Holds(t, i, k) <==> k in news)
    && (forall k: Key :: k in news ==> ItemAt(t, k)[i] == news[k])
  }

  /** Every index other than `i` holds the same versions in both states. */
  ghost predicate SameExcept(s: Shared, t: Shared, i: nat) {
    && (forall j: nat, k: Key :: j != i ==> (Holds(t, j, k) <==> Holds(s, j, k)))
    && (forall j: nat, k: Key :: j != i && Holds(s, j, k) ==> ItemAt(t, k)[j] == ItemAt(s, k)[j])
  }

  /** The versions at `i` after a publication are exactly the written values, each under its own index and
      incarnation; nothing else changes. */
  lemma SetWritesetEffect(s: Shared, i: nat, incarnation: int, ws: WriteSet)
    requires Inv(s)
    ensures var t := SetWriteset(s, i, incarnation, ws);
            && Inv(t) && SameExcept(s, t, i) && t.readsets == s.readsets && t.iteratesets == s.iteratesets
            && (forall k: Key :: Holds(t, i, k) <==> k in ws)
            && (forall k: Key :: k in ws ==> ItemAt(t, k)[i] == ValueItem(i, incarnation, ws[k], false))
  {
    hide Inv, Replace, SameExcept;
    var t := SetWriteset(s, i, incarnation, ws);
    ReplaceKeepsRecords(s, i, PublishedItems(i, incarnation, ws));
    ReplaceEffect(s, i, PublishedItems(i, incarnation, ws), t);
  }

  lemma ReplaceKeepsRecords(s: Shared, i: nat, news: map<Key, ValueItem>)
    ensures Replace(s, i, news).readsets == s.readsets && Replace(s, i, news).iteratesets == s.iteratesets
  {
  }

  /** After an estimated publication every key of the writeset, deleted or not, and no other holds an estimate at `i`;
      nothing else changes. */
  lemma SetEstimatedEffect(s: Shared, i: nat, incarnation: int, ws: WriteSet)
    requires Inv(s)
    ensures var t := SetEstimatedWriteset(s, i, incarnation, ws);
            && Inv(t) && SameExcept(s, t, i) && t.readsets == s.readsets && t.iteratesets == s.iteratesets
            && (forall k: Key :: Holds(t, i, k) <==> k in ws)
            && (forall k: Key :: k in ws ==> ItemAt(t, k)[i] == ValueItem(i, incarnation, None, true))
  {
    hide Inv, Replace, SameExcept;
    var t := SetEstimatedWriteset(s, i, incarnation, ws);
    ReplaceKeepsRecords(s, i, EstimateItems(i, incarnation, ws.Keys));
    ReplaceEffect(s, i, EstimateItems(i, incarnation, ws.Keys), t);
  }

  lemma InvalidateItem(s: Shared, i: nat, incarnation: int, k: Key)
    ensures ItemAt(InvalidateWriteset(s, i, incarnation), k)
         == if Recorded(s, i, k) then ItemAt(s, k)[i := NewEstimateItem(i, incarnation)] else ItemAt(s, k)
  {
  }

  /** Invalidation turns every version of `i` into an estimate, removes none and touches no other index. */
  lemma InvalidateEffect(s: Shared, i: nat, incarnation: int)
    requires Inv(s)
    ensures Inv(InvalidateWriteset(s, i, incarnation))
    ensures SameExcept(s, InvalidateWriteset(s, i, incarnation), i)
    ensures forall k: Key :: Holds(InvalidateWriteset(s, i, incarnation), i, k) <==> Holds(s, i, k)
    ensures forall k: Key :: Holds(s, i, k) ==>
              ItemAt(InvalidateWriteset(s, i, incarnation), k)[i] == ValueItem(i, incarnation, None, true)
    ensures InvalidateWriteset(s, i, incarnation).readsets == s.readsets
    ensures InvalidateWriteset(s, i, incarnation).iteratesets == s.iteratesets
  {
    var t := InvalidateWriteset(s, i, incarnation);
    forall k: Key
      ensures ItemAt(t, k)
           == if Holds(s, i, k) then ItemAt(s, k)[i := NewEstimateItem(i, incarnation)] else ItemAt(s, k)
    {
      InvalidateItem(s, i, incarnation, k);
      assert Holds(s, i, k) <==> Recorded(s, i, k);
    }
    forall k: Key ensures WellIndexed(ItemAt(t, k)) { assert WellIndexed(ItemAt(s, k)); }
    forall j: nat, k: Key ensures Holds(t, j, k) <==> Recorded(t, j, k) {
      assert Recorded(t, j, k) <==> Recorded(s, j, k);
      assert Holds(s, j, k) <==> Recorded(s, j, k);
    }
  }

  /** A run of the store's three writing operations. */
  datatype StoreOp =
    | Write(index: nat, incarnation: int, writeset: WriteSet)
    | WriteEstimates(index: nat, incarnation: int, writeset: WriteSet)
    | Invalidate(index: nat, incarnation: int)

  ghost function Apply(s: Shared, op: StoreOp): Shared {
    match op
    case Write(i, n, ws) => SetWriteset(s, i, n, ws)
    case WriteEstimates(i, n, ws) => SetEstimatedWriteset(s, i, n, ws)
    case Invalidate(i, n) => InvalidateWriteset(s, i, n)
  }

  ghost function RunOps(ops: seq<StoreOp>): Shared {
    if ops == [] then Fresh else Apply(RunOps(ops[..|ops| - 1]), ops[|ops| - 1])
  }

  /** After every run, the keys holding a version at `i` are exactly `i`'s recorded keys, in order. */
  lemma {:induction false} RunKeepsInv(ops: seq<StoreOp>)
    ensures Inv(RunOps(ops))
  {
    if ops != [] {
      RunKeepsInv(ops[..|ops| - 1]);
      ApplyKeepsInv(RunOps(ops[..|ops| - 1]), ops[|ops| - 1]);
    }
  }

  lemma ApplyKeepsInv(s: Shared, op: StoreOp)
    requires Inv(s)
    ensures Inv(Apply(s, op))
  {
    hide Inv, Replace, InvalidateWriteset, SameExcept, HoldsExactly;
    match op
    case Write(i, n, ws) => ReplaceEffect(s, i, PublishedItems(i, n, ws), Apply(s, op));
    case WriteEstimates(i, n, ws) => ReplaceEffect(s, i, EstimateItems(i, n, ws.Keys), Apply(s, op));
    case Invalidate(i, n) => InvalidateEffect(s, i, n);
  }

  // ----- Reading -----

  /** `GetLatestBeforeIndex`. */
  function LatestFor(s: Shared, i: nat, k: Key): Option<ValueItem> {
    LatestBefore(ItemAt(s, k), i)
  }

  /** What a read that misses the transaction's own sets meets: an estimate, or a current value. */
  datatype Source = Estimated(writer: nat) | Current(value: Option<Bytes>)

  function ReadSource(s: Shared, parent: KVMap, i: nat, k: Key): Source {
    match LatestFor(s, i, k)
    case None => Current(Lookup(parent, k))
    case Some(item) => if item.IsEstimate() then Estimated(item.index) else Current(item.value)
  }

  function SharedSource(s: Shared, parent: KVMap, i: nat): Key -> Source {
    (k: Key) => ReadSource(s, parent, i, k)
  }

  /** After invalidating `i`, a later reader whose newest earlier writer is `i` meets an estimate of `i`. */
  lemma InvalidatedReadAborts(s: Shared, parent: KVMap, i: nat, incarnation: int, j: nat, k: Key)
    requires Inv(s) && i < j && Recorded(s, i, k)
    requires forall m :: i < m < j ==> !Recorded(s, m, k)
    ensures ReadSource(InvalidateWriteset(s, i, incarnation), parent, j, k) == Estimated(i)
  {
    var t := InvalidateWriteset(s, i, incarnation);
    InvalidateEffect(s, i, incarnation);
    assert Holds(s, i, k) <==> Recorded(s, i, k);
    forall m | i < m < j ensures m !in ItemAt(t, k) { assert !Holds(s, m, k) && !Holds(t, m, k); }
    NewestIs(ItemAt(t, k), i, j);
  }

  /** After an estimated publication at `i`, likewise for every key it writes or deletes. */
  lemma EstimatedReadAborts(s: Shared, parent: KVMap, i: nat, incarnation: int, ws: WriteSet, j: nat, k: Key)
    requires Inv(s) && k in ws && i < j && forall m :: i < m < j ==> !Holds(s, m, k)
    ensures ReadSource(SetEstimatedWriteset(s, i, incarnation, ws), parent, j, k) == Estimated(i)
  {
    var t := SetEstimatedWriteset(s, i, incarnation, ws);
    SetEstimatedEffect(s, i, incarnation, ws);
    hide SetEstimatedWriteset, Inv;
    assert Holds(t, i, k);
    forall m | i < m < j ensures m !in ItemAt(t, k) { assert !Holds(s, m, k) && !Holds(t, m, k); }
    NewestIs(ItemAt(t, k), i, j);
  }

  /** After a regular publication at `i`, the later reader gets the value, or nothing where the key was deleted. */
  lemma PublishedReadAnswers(s: Shared, parent: KVMap, i: nat, incarnation: int, ws: WriteSet, j: nat, k: Key)
    requires Inv(s) && k in ws && i < j && forall m :: i < m < j ==> !Holds(s, m, k)
    ensures ReadSource(SetWriteset(s, i, incarnation, ws), parent, j, k) == Current(ws[k])
  {
    var t := SetWriteset(s, i, incarnation, ws);
    SetWritesetEffect(s, i, incarnation, ws);
    hide SetWriteset, Inv;
    assert Holds(t, i, k);
    forall m | i < m < j ensures m !in ItemAt(t, k) { assert !Holds(s, m, k) && !Holds(t, m, k); }
    NewestIs(ItemAt(t, k), i, j);
  }

  lemma {:induction false} NewestIs(item: Item, i: nat, j: nat)
    requires i < j && i in item && forall m :: i < m < j ==> m !in item
    ensures LatestBefore(item, j) == Some(item[i])
    decreases j
  {
    if i < j - 1 { NewestIs(item, i, j - 1); }
  }

  /** No transaction before `i` has left an estimate. */
  ghost predicate NoEstimatesBefore(s: Shared, i: nat) {
    forall j: nat, k: Key :: j < i && Holds(s, j, k) ==> !ItemAt(s, k)[j].IsEstimate()
  }

  /** The versions visible before `i`, as pending writes over the parent. */
  function Below(s: Shared, i: nat): (ws: WriteSet)
    ensures forall k: Key :: k in ws <==> LatestFor(s, i, k).Some?
    ensures forall k: Key :: k in ws ==> ws[k] == LatestFor(s, i, k).value.value
  {
    assert forall k: Key :: LatestFor(s, i, k).Some? ==> k in s.versions by {
      forall k: Key | k !in s.versions ensures LatestFor(s, i, k).None? { LatestBeforeIsGreatest(map[], i); }
    }
    map k | k in s.versions && LatestFor(s, i, k).Some? :: LatestFor(s, i, k).value.value
  }

  /** The store as transaction `i` must see it: the parent under all earlier versions. */
  function View(s: Shared, parent: KVMap, i: nat): KVMap {
    Overlay(parent, Below(s, i))
  }

  lemma ViewReads(s: Shared, parent: KVMap, i: nat, k: Key)
    requires NoEstimatesBefore(s, i)
    ensures ReadSource(s, parent, i, k) == Current(Lookup(View(s, parent, i), k))
  {
    LatestBeforeIsGreatest(ItemAt(s, k), i);
    if LatestFor(s, i, k).Some? {
      var j :| 0 <= j < i && j in ItemAt(s, k) && LatestFor(s, i, k).value == ItemAt(s, k)[j];
      assert Holds(s, j, k);
    }
  }

  // ----- Validation -----

  /** `CollectIteratorItems`: all keys recorded before `i`. */
  function Collected(s: Shared, i: nat): set<Key> {
    if i == 0 then {} else Collected(s, i - 1) + RecordedKeys(s, i - 1)
  }

  function RecordedKeys(s: Shared, i: nat): (ks: set<Key>)
    ensures forall k: Key :: k in ks <==> Recorded(s, i, k)
  {
    if i in s.writesetKeys then Elements(s.writesetKeys[i]) else {}
  }

  lemma {:induction false} CollectedKeys(s: Shared, i: nat, k: Key)
    ensures k in Collected(s, i) <==> exists j :: 0 <= j < i && Recorded(s, j, k)
  {
    if i > 0 { CollectedKeys(s, i - 1, k); }
  }

  /** The items a validation replay merges with the parent: `validationIterator.Value` for each key. */
  ghost function ReplayWrites(s: Shared, i: nat, tws: WriteSet): WriteSet {
    map k | k in Collected(s, i) + tws.Keys ::
      if k in tws then tws[k]
      else if LatestFor(s, i, k).Some? then LatestFor(s, i, k).value.value
      else None
  }

  /** The validation iterator never asks for a version that is not there. */
  lemma ReplayFindsVersions(s: Shared, i: nat, k: Key)
    requires Inv(s)
    ensures k in Collected(s, i) <==> LatestFor(s, i, k).Some?
  {
    LatestBeforeIsGreatest(ItemAt(s, k), i);
    CollectedKeys(s, i, k);
    if k in Collected(s, i) {
      var j :| 0 <= j < i && Recorded(s, j, k);
      assert Holds(s, j, k);
    } else {
      forall j | 0 <= j < i ensures j !in ItemAt(s, k) { assert !Recorded(s, j, k) && !Holds(s, j, k); }
    }
  }

  lemma ReplaySeesView(s: Shared, parent: KVMap, i: nat, tws: WriteSet)
    requires Inv(s)
    ensures Overlay(parent, ReplayWrites(s, i, tws)) == Overlay(View(s, parent, i), tws)
  {
    forall k: Key
      ensures Lookup(Overlay(parent, ReplayWrites(s, i, tws)), k)
           == if k in tws then tws[k] else Lookup(View(s, parent, i), k)
    {
      ReplayFindsVersions(s, i, k);
    }
    OverlayUnique(View(s, parent, i), tws, Overlay(parent, ReplayWrites(s, i, tws)));
  }

  /** The loop of `validateIterator` over the keys the merge iterator yields. */
  function CheckKeys(keys: seq<Key>, expected: set<Key>, found: nat, stop: Option<Key>): bool {
    if keys == [] then !(|expected| - found > 0)
    else if |expected| - found == 0 || keys[0] !in expected then false
    else if stop == Some(keys[0]) then !(|expected| - (found + 1) > 0)
    else CheckKeys(keys[1..], expected, found + 1, stop)
  }

  ghost function ReplayKeys(s: Shared, parent: KVMap, i: nat, t: Tracker): seq<Key> {
    EntryKeys(Remaining(t.ascending, EntriesOf(t.ascending, t.range, parent),
                        WritesOf(t.ascending, t.range, ReplayWrites(s, i, t.writeset))))
  }

  /** `validateIterator` when no estimate lies below `i`. */
  ghost predicate ValidateIterator(s: Shared, parent: KVMap, i: nat, t: Tracker) {
    CheckKeys(ReplayKeys(s, parent, i, t), t.iteratedKeys, 0, t.earlyStop)
  }

  /** The part of a scan an iteration has covered: up to and including the early-stop key. */
  function UpTo(keys: seq<Key>, stop: Option<Key>): seq<Key> {
    if keys == [] then []
    else if stop == Some(keys[0]) then [keys[0]]
    else [keys[0]] + UpTo(keys[1..], stop)
  }

  /** The scan `i` would make now, through the writes it had pending when it opened the iterator. */
  ghost function FreshScan(view: KVMap, t: Tracker): seq<Key> {
    Scan(t.ascending, t.range, Overlay(view, t.writeset).Keys)
  }

  /** The phantom check is exact: it accepts if and only if a fresh scan, cut at the early-stop key,
      visits exactly the tracked keys. */
  lemma PhantomCheckExact(s: Shared, parent: KVMap, i: nat, t: Tracker)
    requires Inv(s)
    ensures ReplayKeys(s, parent, i, t) == FreshScan(View(s, parent, i), t)
    ensures ValidateIterator(s, parent, i, t)
       <==> Elements(UpTo(FreshScan(View(s, parent, i), t), t.earlyStop)) == t.iteratedKeys
  {
    MergeIsOverlayScan(t.ascending, t.range, parent, ReplayWrites(s, i, t.writeset));
    ReplaySeesView(s, parent, i, t.writeset);
    var keys := FreshScan(View(s, parent, i), t);
    OrderedDistinct(t.ascending, keys);
    CheckKeysExact(keys, t.iteratedKeys, {}, t.earlyStop);
    assert {} + Elements(UpTo(keys, t.earlyStop)) == Elements(UpTo(keys, t.earlyStop));
  }

  predicate Distinct(s: seq<Key>) {
    forall i, j :: 0 <= i < j < |s| ==> s[i] != s[j]
  }

  lemma OrderedDistinct(ascending: bool, s: seq<Key>)
    requires Ordered(ascending, s)
    ensures Distinct(s)
  {
    forall i, j | 0 <= i < j < |s| ensures s[i] != s[j] { BeforeIsStrict(ascending, s[i], s[j]); }
  }

  lemma {:induction false} CheckKeysExact(keys: seq<Key>, expected: set<Key>, seen: set<Key>, stop: Option<Key>)
    requires Distinct(keys) && seen <= expected && forall k :: k in keys ==> k !in seen
    ensures CheckKeys(keys, expected, |seen|, stop) <==> seen + Elements(UpTo(keys, stop)) == expected
    decreases |keys|
  {
    if keys == [] {
      SubsetCardinality(seen, expected);
      assert seen + Elements(UpTo(keys, stop)) == seen;
    } else {
      DistinctTail(keys);
      if keys[0] in expected && stop != Some(keys[0]) {
        CheckKeysExact(keys[1..], expected, seen + {keys[0]}, stop);
      }
      CheckKeysStep(keys, expected, seen, stop);
    }
  }

  lemma CheckKeysStep(keys: seq<Key>, expected: set<Key>, seen: set<Key>, stop: Option<Key>)
    requires keys != [] && seen <= expected && keys[0] !in seen
    requires keys[0] in expected && stop != Some(keys[0]) ==>
               (CheckKeys(keys[1..], expected, |seen + {keys[0]}|, stop)
                <==> (seen + {keys[0]}) + Elements(UpTo(keys[1..], stop)) == expected)
    ensures CheckKeys(keys, expected, |seen|, stop) <==> seen + Elements(UpTo(keys, stop)) == expected
  {
    var k := keys[0];
    UpToElements(keys, stop);
    assert k in seen + Elements(UpTo(keys, stop));
    assert |seen + {k}| == |seen| + 1;
    if k in expected {
      SubsetCardinality(seen + {k}, expected);
      UnionAssoc(seen, k, Elements(UpTo(keys[1..], stop)));
    }
  }

  lemma UnionAssoc(a: set<Key>, k: Key, b: set<Key>)
    ensures (a + {k}) + b == a + ({k} + b)
  {
  }

  lemma DistinctTail(keys: seq<Key>)
    requires Distinct(keys) && keys != []
    ensures Distinct(keys[1..]) && keys[0] !in keys[1..]
    ensures forall k :: k in keys[1..] ==> k in keys
  {
  }

  lemma UpToElements(keys: seq<Key>, stop: Option<Key>)
    requires keys != []
    ensures Elements(UpTo(keys, stop))
         == if stop == Some(keys[0]) then {keys[0]} else {keys[0]} + Elements(UpTo(keys[1..], stop))
  {
  }

  lemma {:induction false} SubsetCardinality(a: set<Key>, b: set<Key>)
    requires a <= b
    ensures |a| <= |b| && (|a| == |b| ==> a == b)
  {
    assert b == a + (b - a) && |b| == |a| + |b - a|;
  }

  /** One readset entry against the current state: `checkReadsetAtIndex`'s verdict on a key. */
  predicate ReadValid(s: Shared, parent: KVMap, i: nat, k: Key, values: seq<Option<Bytes>>) {
    |values| == 1 &&
    match LatestFor(s, i, k)
    case None => BytesEqual(Lookup(parent, k), values[0])
    case Some(item) =>
      if item.IsEstimate() then true
      else if item.IsDeleted() then values[0].None?
      else BytesEqual(item.value, values[0])
  }

  /** Whether the key puts the index of its newest version into the conflict set. */
  predicate ReadConflicts(s: Shared, parent: KVMap, i: nat, k: Key, values: seq<Option<Bytes>>) {
    |values| == 1 && LatestFor(s, i, k).Some? &&
    (LatestFor(s, i, k).value.IsEstimate() || !ReadValid(s, parent, i, k, values))
  }

  function ReadsetAt(s: Shared, i: nat): ReadSet {
    if i in s.readsets then s.readsets[i] else map[]
  }

  function IteratesetAt(s: Shared, i: nat): seq<Tracker> {
    if i in s.iteratesets then s.iteratesets[i] else []
  }

  ghost predicate ReadsetValid(s: Shared, parent: KVMap, i: nat) {
    forall k :: k in ReadsetAt(s, i) ==> ReadValid(s, parent, i, k, ReadsetAt(s, i)[k])
  }

  /** The conflict set: indices of versions that disagree with, or are estimates of, something read. */
  ghost function Conflicts(s: Shared, parent: KVMap, i: nat): set<nat> {
    set k | k in ReadsetAt(s, i) && ReadConflicts(s, parent, i, k, ReadsetAt(s, i)[k]) :: LatestFor(s, i, k).value.index
  }

  /** All of the trackers pass. */
  ghost predicate TrackersValid(s: Shared, parent: KVMap, i: nat, ts: seq<Tracker>) {
    forall n :: 0 <= n < |ts| ==> ValidateIterator(s, parent, i, ts[n])
  }

  ghost predicate IteratesetValid(s: Shared, parent: KVMap, i: nat) {
    TrackersValid(s, parent, i, IteratesetAt(s, i))
  }

  /** `ValidateTransactionState`'s boolean. */
  ghost predicate ValidState(s: Shared, parent: KVMap, i: nat) {
    IteratesetValid(s, parent, i) && ReadsetValid(s, parent, i)
  }

  /** A read check accepts exactly equal values, except that it takes nil for empty: a recorded nil
      passes against a current empty value, and a recorded empty value against an absent parent key. */
  lemma ReadValidExact(s: Shared, parent: KVMap, i: nat, k: Key, v: Option<Bytes>)
    requires NoEstimatesBefore(s, i)
    ensures ReadValid(s, parent, i, k, [v])
       <==> || Lookup(View(s, parent, i), k) == v
            || (v.None? && Lookup(View(s, parent, i), k) == Some([]))
            || (v == Some([]) && LatestFor(s, i, k).None? && k !in parent)
  {
    ViewReads(s, parent, i, k);
  }

  /** j is the newest writer of k before i. */
  ghost predicate NewestWriter(s: Shared, i: nat, k: Key, j: nat) {
    j < i && Holds(s, j, k) && forall m: nat :: j < m < i ==> !Holds(s, m, k)
  }

  /** The recorded value is not what the newest writer left: an estimate contradicts everything. */
  predicate Contradicts(item: ValueItem, v: Option<Bytes>) {
    item.IsEstimate() || (item.IsDeleted() && v.Some?) || (item.value.Some? && Contents(item.value) != Contents(v))
  }

  lemma NewestIsLatest(s: Shared, i: nat, k: Key, j: nat)
    requires Inv(s)
    ensures NewestWriter(s, i, k, j) <==>
            LatestFor(s, i, k).Some? && LatestFor(s, i, k).value.index == j && Holds(s, j, k) && j < i
  {
    LatestBeforeIsGreatest(ItemAt(s, k), i);
    assert WellIndexed(ItemAt(s, k));
    if NewestWriter(s, i, k, j) {
      forall m | j < m < i ensures m !in ItemAt(s, k) { assert !Holds(s, m, k); }
      NewestIs(ItemAt(s, k), j, i);
    }
  }

  /** The recorded values fail against the state: there is not exactly one, or the newest earlier writer left a version
      that is no estimate and differs, or there is no earlier writer and the parent differs. */
  ghost predicate ReadFails(s: Shared, parent: KVMap, i: nat, k: Key, values: seq<Option<Bytes>>) {
    || |values| != 1
    || (exists j: nat :: NewestWriter(s, i, k, j) && Differs(ItemAt(s, k)[j], values[0]))
    || ((forall j: nat :: !NewestWriter(s, i, k, j)) && Contents(Lookup(parent, k)) != Contents(values[0]))
  }

  /** A version that is no estimate and not the recorded value. */
  predicate Differs(item: ValueItem, v: Option<Bytes>) {
    !item.estimate && (if item.value.None? then v.Some? else item.value.value != Contents(v))
  }

  /** The readset check fails exactly on such keys. Estimates alone never make it fail. */
  lemma ReadsetFailsExact(s: Shared, parent: KVMap, i: nat)
    requires Inv(s)
    ensures ReadsetValid(s, parent, i) <==>
            forall k :: k in ReadsetAt(s, i) ==> !ReadFails(s, parent, i, k, ReadsetAt(s, i)[k])
  {
    hide Inv, ReadValid, ReadFails;
    forall k | k in ReadsetAt(s, i)
      ensures ReadValid(s, parent, i, k, ReadsetAt(s, i)[k]) <==> !ReadFails(s, parent, i, k, ReadsetAt(s, i)[k])
    {
      ReadFailsExact(s, parent, i, k, ReadsetAt(s, i)[k]);
    }
  }

  lemma ReadFailsExact(s: Shared, parent: KVMap, i: nat, k: Key, values: seq<Option<Bytes>>)
    requires Inv(s)
    ensures ReadValid(s, parent, i, k, values) <==> !ReadFails(s, parent, i, k, values)
  {
    LatestBeforeIsGreatest(ItemAt(s, k), i);
    forall j: nat ensures NewestWriter(s, i, k, j) <==>
                          LatestFor(s, i, k).Some? && LatestFor(s, i, k).value.index == j && Holds(s, j, k) && j < i
    {
      NewestIsLatest(s, i, k, j);
    }
    assert WellIndexed(ItemAt(s, k));
    hide Inv, NewestWriter;
    if LatestFor(s, i, k).Some? {
      var j :| 0 <= j < i && j in ItemAt(s, k) && LatestFor(s, i, k).value == ItemAt(s, k)[j];
      assert NewestWriter(s, i, k, j);
    }
  }

  /** The conflicts reported for a transaction are exactly the newest earlier writers of keys it read that left an
      estimate or another value. */
  lemma ConflictsExact(s: Shared, parent: KVMap, i: nat, j: nat)
    requires Inv(s)
    ensures j in Conflicts(s, parent, i) <==>
            exists k :: && k in ReadsetAt(s, i) && |ReadsetAt(s, i)[k]| == 1 && NewestWriter(s, i, k, j)
                        && Contradicts(ItemAt(s, k)[j], ReadsetAt(s, i)[k][0])
  {
    var rs := ReadsetAt(s, i);
    forall k | k in rs
      ensures ReadConflicts(s, parent, i, k, rs[k]) && LatestFor(s, i, k).value.index == j <==>
              |rs[k]| == 1 && NewestWriter(s, i, k, j) && Contradicts(ItemAt(s, k)[j], rs[k][0])
    {
      ReadConflictExact(s, parent, i, k, rs[k], j);
    }
  }

  lemma ReadConflictExact(s: Shared, parent: KVMap, i: nat, k: Key, values: seq<Option<Bytes>>, j: nat)
    requires Inv(s)
    ensures ReadConflicts(s, parent, i, k, values) && LatestFor(s, i, k).value.index == j <==>
            |values| == 1 && NewestWriter(s, i, k, j) && Contradicts(ItemAt(s, k)[j], values[0])
  {
    NewestIsLatest(s, i, k, j);
    LatestBeforeIsGreatest(ItemAt(s, k), i);
    assert WellIndexed(ItemAt(s, k));
  }

  // ----- Flushing -----

  /** `WriteLatestToStore`. */
  ghost function Flushed(s: Shared, parent: KVMap): KVMap {
    Overlay(parent, map k | k in s.versions && LatestFinal(s.versions[k]).Some? ::
                      LatestFinal(s.versions[k]).value.value)
  }

  ghost predicate IndicesBelow(s: Shared, n: nat) {
    forall k: Key :: Bounded(ItemAt(s, k), n)
  }

  /** Each key has the value or deletion of its greatest version that is no estimate, and its former value where
      there is none. */
  ghost predicate LatestWritten(s: Shared, before: KVMap, after: KVMap) {
    && (forall k: Key, j: nat :: GreatestFinal(ItemAt(s, k), j) ==> Lookup(after, k) == ItemAt(s, k)[j].value)
    && (forall k: Key :: OnlyEstimates(ItemAt(s, k)) ==> Lookup(after, k) == Lookup(before, k))
  }

  /** That is what the flush does, in every state. */
  lemma FlushExact(s: Shared, parent: KVMap)
    ensures LatestWritten(s, parent, Flushed(s, parent))
  {
    hide Flushed;
    forall k: Key, j: nat | GreatestFinal(ItemAt(s, k), j)
      ensures Lookup(Flushed(s, parent), k) == ItemAt(s, k)[j].value
    {
      FlushesGreatest(s, parent, k, j);
    }
    forall k: Key | OnlyEstimates(ItemAt(s, k)) ensures Lookup(Flushed(s, parent), k) == Lookup(parent, k) {
      FlushesNothing(s, parent, k);
    }
  }

  lemma FlushesGreatest(s: Shared, parent: KVMap, k: Key, j: nat)
    requires GreatestFinal(ItemAt(s, k), j)
    ensures Lookup(Flushed(s, parent), k) == ItemAt(s, k)[j].value
  {
    LatestFinalExact(ItemAt(s, k), ItemAt(s, k)[j]);
  }

  lemma FlushesNothing(s: Shared, parent: KVMap, k: Key)
    requires OnlyEstimates(ItemAt(s, k))
    ensures Lookup(Flushed(s, parent), k) == Lookup(parent, k)
  {
    LatestFinalExact(ItemAt(s, k), NewEstimateItem(0, 0));
  }

  /** With no estimates left, flushing leaves the parent equal to what a transaction after all others sees. */
  lemma FlushIsFinalView(s: Shared, parent: KVMap, n: nat)
    requires Inv(s) && IndicesBelow(s, n) && NoEstimatesBefore(s, n)
    ensures Flushed(s, parent) == View(s, parent, n)
  {
    forall k: Key ensures Lookup(Flushed(s, parent), k) == Lookup(View(s, parent, n), k) {
      var item := ItemAt(s, k);
      LatestAnyBound(item, n);
      assert forall j :: 0 <= j < n && j in item ==> Holds(s, j, k) && !item[j].IsEstimate();
      FinalIsLatest(item, n);
      if k !in s.versions { LatestBeforeIsGreatest(map[], n); }
    }
    OverlayUnique(parent, Below(s, n), Flushed(s, parent));
  }

  lemma {:induction false} FinalIsLatest(item: Item, n: nat)
    requires forall j :: 0 <= j < n && j in item ==> !item[j].IsEstimate()
    ensures LatestFinalBefore(item, n) == LatestBefore(item, n)
  {
    if n > 0 { FinalIsLatest(item, n - 1); }
  }
}

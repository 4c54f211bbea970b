/** The snapshot index (`snapshots/store.go`): database keys, the newest snapshot, the list and pruning. */
module SnapshotStore {
  import opened Bytes
  import opened Words
  import opened MergeIterator
  import opened Listing

  const KEY_PREFIX: byte := 1
  const MAX_HEIGHT: uint64 := TWO_64 - 1
  const MAX_FORMAT: uint32 := TWO_32 - 1

  /** A snapshot's identity. */
  datatype Id = Id(height: uint64, format: uint32)

  predicate Earlier(a: Id, b: Id) {
    a.height < b.height || (a.height == b.height && a.format < b.format)
  }

  // ---------- keys ----------

  function EncodeKey(id: Id): Key {
    [KEY_PREFIX] + BigEndian(id.height, 8) + BigEndian(id.format, 4)
  }

  /** None is the source's error for a key of the wrong length or prefix. */
  function DecodeKey(k: Bytes): Option<Id> {
    if |k| != 13 || k[0] != KEY_PREFIX then None
    else
      WordSizes(); BigEndianUnique(k[1..9]); BigEndianUnique(k[9..13]);
      Some(Id(FromBigEndian(k[1..9]), FromBigEndian(k[9..13])))
  }

  /** Decoding undoes encoding, and only encoded keys decode. */
  lemma KeyRoundTrip(id: Id, k: Bytes)
    ensures DecodeKey(k) == Some(id) <==> k == EncodeKey(id)
  {
    WordSizes();
    BigEndianRoundTrip(id.height, 8);
    BigEndianRoundTrip(id.format, 4);
    var e := EncodeKey(id);
    assert e[1..9] == BigEndian(id.height, 8) && e[9..13] == BigEndian(id.format, 4);
    if |k| == 13 {
      BigEndianUnique(k[1..9]);
      BigEndianUnique(k[9..13]);
      assert k == [k[0]] + k[1..9] + k[9..13];
    }
  }

  /** The order of the keys is the order of the snapshots. */
  lemma KeyOrder(a: Id, b: Id)
    ensures Less(EncodeKey(a), EncodeKey(b)) <==> Earlier(a, b)
  {
    WordSizes();
    var ah, bh, af, bf := BigEndian(a.height, 8), BigEndian(b.height, 8), BigEndian(a.format, 4),
         BigEndian(b.format, 4);
    LessOfConcat([KEY_PREFIX] + ah, af, [KEY_PREFIX] + bh, bf);
    LessOfConcat([KEY_PREFIX], ah, [KEY_PREFIX], bh);
    LessIrreflexive([KEY_PREFIX]);
    BigEndianOrder(a.height, b.height, 8);
    BigEndianOrder(a.format, b.format, 4);
    BigEndianRoundTrip(a.height, 8);
    BigEndianRoundTrip(b.height, 8);
    assert [KEY_PREFIX] + ah == [KEY_PREFIX] + bh <==> ah == bh by {
      assert ([KEY_PREFIX] + ah)[1..] == ah && ([KEY_PREFIX] + bh)[1..] == bh;
    }
  }

  /** The range that listing and pruning scan; its end is exclusive. */
  function Visited(): Range {
    Range(Some(EncodeKey(Id(0, 0))), Some(EncodeKey(Id(MAX_HEIGHT, MAX_FORMAT))))
  }

  /** It holds every snapshot key except the all-ones one. */
  lemma VisitedExact(id: Id)
    ensures InRange(Visited(), EncodeKey(id)) <==> id != Id(MAX_HEIGHT, MAX_FORMAT)
  {
    KeyOrder(id, Id(0, 0));
    KeyOrder(id, Id(MAX_HEIGHT, MAX_FORMAT));
  }

  // ---------- pruning ----------

  /** Which keys a pruning scan deletes, in order, and whether it reaches the end without an error. */
  datatype Outcome = Outcome(deleted: seq<Key>, ok: bool)

  /** The scan from newest to oldest; `skip` holds the heights kept so far. A key that does not decode and a
      height being saved are errors. */
  function PruneFrom(keys: seq<Key>, skip: set<uint64>, retain: uint32, saving: set<uint64>): Outcome {
    if keys == [] then Outcome([], true)
    else match DecodeKey(keys[0])
      case None => Outcome([], false)
      case Some(id) =>
        if id.height in skip || |skip| % TWO_32 < retain then
          PruneFrom(keys[1..], skip + {id.height}, retain, saving)
        else if id.height in saving then Outcome([], false)
        else
          var rest := PruneFrom(keys[1..], skip, retain, saving);
          Outcome([keys[0]] + rest.deleted, rest.ok)
  }

  ghost predicate AllDecode(keys: seq<Key>) {
    forall i :: 0 <= i < |keys| ==> DecodeKey(keys[i]).Some?
  }

  function HeightOf(k: Key): uint64
    requires DecodeKey(k).Some?
  {
    DecodeKey(k).value.height
  }

  ghost predicate Descending(keys: seq<Key>)
    requires AllDecode(keys)
  {
    forall i, j :: 0 <= i < j < |keys| ==> HeightOf(keys[i]) >= HeightOf(keys[j])
  }

  ghost function Heights(keys: seq<Key>): set<uint64>
    requires AllDecode(keys)
  {
    set i | 0 <= i < |keys| :: HeightOf(keys[i])
  }

  ghost function Newer(hs: set<uint64>, h: uint64): set<uint64> {
    set x | x in hs && x > h
  }

  /** At least `retain` distinct newer heights exist. */
  ghost predicate Doomed(hs: set<uint64>, retain: uint32, k: Key)
    requires DecodeKey(k).Some?
  {
    |Newer(hs, HeightOf(k))| >= retain
  }

  /** `skip` is the first `retain` of the heights seen so far. */
  ghost predicate Tracks(skip: set<uint64>, seen: set<uint64>, retain: uint32) {
    && skip <= seen
    && if |seen| <= retain then skip == seen
       else |skip| == retain && forall a, b :: a in seen && a !in skip && b in skip ==> a < b
  }

  /** The test made at a height agrees with the number of newer heights, and keeps track. */
  lemma Decides(skip: set<uint64>, seen: set<uint64>, newer: set<uint64>, h: uint64, retain: uint32)
    requires Tracks(skip, seen, retain) && newer <= seen <= newer + {h} && forall x :: x in newer ==> x > h
    ensures h in skip || |skip| % TWO_32 < retain <==> |newer| < retain
    ensures Tracks(if |newer| < retain then skip + {h} else skip, seen + {h}, retain)
  {
    assert |skip| <= retain by { if |seen| > retain { assert |skip| == retain; } }
    assert if h in seen then seen == newer + {h} else seen == newer;
    if h !in seen {
      assert h !in skip;
    } else if |seen| > retain && h in skip {
      SmallestIsLast(skip, seen, h);
      assert false;
    } else if |seen| <= retain {
      assert skip + {h} == skip && seen + {h} == seen;
    } else {
      assert seen + {h} == seen;
    }
  }

  lemma SmallestIsLast(skip: set<uint64>, seen: set<uint64>, h: uint64)
    requires skip <= seen && |skip| < |seen| && h in skip
    requires forall x :: x in seen ==> x >= h
    ensures exists a :: a in seen && a !in skip && a > h
  {
    assert seen * skip == skip && |seen - skip| > 0;
    var a :| a in seen - skip;
  }

  /** The doomed ones among some keys, in order. */
  ghost function Filtered(keys: seq<Key>, hs: set<uint64>, retain: uint32): seq<Key>
    requires AllDecode(keys)
  {
    if keys == [] then []
    else (if Doomed(hs, retain, keys[0]) then [keys[0]] else []) + Filtered(keys[1..], hs, retain)
  }

  /** Before a key come exactly the newer heights, and perhaps its own. */
  lemma SeenSoFar(all: seq<Key>, i: nat)
    requires AllDecode(all) && Descending(all) && i < |all|
    ensures Newer(Heights(all), HeightOf(all[i])) <= Heights(all[..i])
    ensures Heights(all[..i]) <= Newer(Heights(all), HeightOf(all[i])) + {HeightOf(all[i])}
  {
    var newer, seen := Newer(Heights(all), HeightOf(all[i])), Heights(all[..i]);
    forall x | x in newer ensures x in seen {
      var j :| 0 <= j < |all| && HeightOf(all[j]) == x;
      assert j < i && all[..i][j] == all[j];
    }
    forall x | x in seen ensures x in newer || x == HeightOf(all[i]) {
      var j :| 0 <= j < i && HeightOf(all[..i][j]) == x;
      assert all[..i][j] == all[j] && HeightOf(all[j]) in Heights(all);
    }
  }

  lemma HeightsGrow(keys: seq<Key>, k: Key)
    requires AllDecode(keys) && DecodeKey(k).Some?
    ensures AllDecode(keys + [k]) && Heights(keys + [k]) == Heights(keys) + {HeightOf(k)}
  {
    forall x ensures x in Heights(keys + [k]) <==> x in Heights(keys) + {HeightOf(k)} {
      if x in Heights(keys) {
        var j :| 0 <= j < |keys| && HeightOf(keys[j]) == x;
        assert (keys + [k])[j] == keys[j];
      }
      if x == HeightOf(k) { assert (keys + [k])[|keys|] == k; }
    }
  }

  ghost predicate NoneSaving(keys: seq<Key>, hs: set<uint64>, retain: uint32, saving: set<uint64>)
    requires AllDecode(keys)
  {
    forall i :: 0 <= i < |keys| && Doomed(hs, retain, keys[i]) ==> HeightOf(keys[i]) !in saving
  }

  lemma NoneSavingStep(keys: seq<Key>, hs: set<uint64>, retain: uint32, saving: set<uint64>)
    requires AllDecode(keys) && keys != []
    ensures NoneSaving(keys, hs, retain, saving) <==>
            NoneSaving(keys[1..], hs, retain, saving) && (Doomed(hs, retain, keys[0]) ==> HeightOf(keys[0]) !in saving)
  {
    assert forall i :: 0 <= i < |keys[1..]| ==> keys[1..][i] == keys[i + 1];
    assert forall i :: 0 < i < |keys| ==> keys[i] == keys[1..][i - 1];
  }

  lemma TracksNext(all: seq<Key>, i: nat, skip: set<uint64>, retain: uint32)
    requires AllDecode(all) && Descending(all) && i < |all| && Tracks(skip, Heights(all[..i]), retain)
    ensures HeightOf(all[i]) in skip || |skip| % TWO_32 < retain <==> !Doomed(Heights(all), retain, all[i])
    ensures Tracks(if Doomed(Heights(all), retain, all[i]) then skip else skip + {HeightOf(all[i])},
                   Heights(all[..i + 1]), retain)
  {
    SeenSoFar(all, i);
    HeightsGrow(all[..i], all[i]);
    assert all[..i] + [all[i]] == all[..i + 1];
    Decides(skip, Heights(all[..i]), Newer(Heights(all), HeightOf(all[i])), HeightOf(all[i]), retain);
  }

  lemma {:induction false} PruneFromExact(all: seq<Key>, i: nat, skip: set<uint64>, retain: uint32, saving: set<uint64>)
    requires AllDecode(all) && Descending(all) && i <= |all| && Tracks(skip, Heights(all[..i]), retain)
    ensures PruneFrom(all[i..], skip, retain, saving).ok <==> NoneSaving(all[i..], Heights(all), retain, saving)
    ensures PruneFrom(all[i..], skip, retain, saving).ok ==>
              PruneFrom(all[i..], skip, retain, saving).deleted == Filtered(all[i..], Heights(all), retain)
    decreases |all| - i
  {
    if i < |all| {
      hide Doomed, HeightOf, Heights, NoneSaving, Filtered, PruneFrom, Tracks, Descending;
      var keys, hs := all[i..], Heights(all);
      TracksNext(all, i, skip, retain);
      var next := if Doomed(hs, retain, all[i]) then skip else skip + {HeightOf(all[i])};
      PruneFromExact(all, i + 1, next, retain, saving);
      assert keys[1..] == all[i + 1..];
      HeadDecided(keys, skip, hs, retain, saving);
      HeadCounts(keys, hs, retain, saving, PruneFrom(keys, skip, retain, saving),
                 PruneFrom(keys[1..], next, retain, saving));
    }
  }

  ghost function HeadOutcome(keys: seq<Key>, hs: set<uint64>, retain: uint32, saving: set<uint64>,
                             rest: Outcome): Outcome
    requires AllDecode(keys) && keys != []
  {
    if !Doomed(hs, retain, keys[0]) then rest
    else if HeightOf(keys[0]) in saving then Outcome([], false)
    else Outcome([keys[0]] + rest.deleted, rest.ok)
  }

  lemma HeadDecided(keys: seq<Key>, skip: set<uint64>, hs: set<uint64>, retain: uint32, saving: set<uint64>)
    requires AllDecode(keys) && keys != []
    requires HeightOf(keys[0]) in skip || |skip| % TWO_32 < retain <==> !Doomed(hs, retain, keys[0])
    ensures PruneFrom(keys, skip, retain, saving) == HeadOutcome(keys, hs, retain, saving,
              PruneFrom(keys[1..], if Doomed(hs, retain, keys[0]) then skip else skip + {HeightOf(keys[0])}, retain,
                        saving))
  {
  }

  lemma HeadCounts(keys: seq<Key>, hs: set<uint64>, retain: uint32, saving: set<uint64>, o: Outcome, rest: Outcome)
    requires AllDecode(keys) && keys != [] && o == HeadOutcome(keys, hs, retain, saving, rest)
    requires rest.ok <==> NoneSaving(keys[1..], hs, retain, saving)
    requires rest.ok ==> rest.deleted == Filtered(keys[1..], hs, retain)
    ensures o.ok <==> NoneSaving(keys, hs, retain, saving)
    ensures o.ok ==> o.deleted == Filtered(keys, hs, retain)
  {
    NoneSavingStep(keys, hs, retain, saving);
    var f := Filtered(keys[1..], hs, retain);
    assert [] + f == f;
  }

  /** Every key that a scan visits is a snapshot's. */
  ghost predicate IsIndex(m: KVMap) {
    forall k :: k in m && InRange(Visited(), k) ==> DecodeKey(k).Some?
  }

  ghost function VisitedKeys(m: KVMap): seq<Key> {
    Scan(false, Visited(), m.Keys)
  }

  lemma VisitedDescend(m: KVMap)
    requires IsIndex(m)
    ensures AllDecode(VisitedKeys(m)) && Descending(VisitedKeys(m))
  {
    var keys := VisitedKeys(m);
    forall i | 0 <= i < |keys| ensures DecodeKey(keys[i]).Some? { assert keys[i] in keys; }
    forall i, j | 0 <= i < j < |keys| ensures HeightOf(keys[i]) >= HeightOf(keys[j]) {
      var a, b := DecodeKey(keys[i]).value, DecodeKey(keys[j]).value;
      KeyRoundTrip(a, keys[i]);
      KeyRoundTrip(b, keys[j]);
      assert Before(false, keys[i], keys[j]);
      KeyOrder(b, a);
    }
  }

  /** What a pruning leaves. */
  ghost function Pruned(m: KVMap, retain: uint32, saving: set<uint64>): KVMap {
    m - Elements(PruneFrom(VisitedKeys(m), {}, retain, saving).deleted)
  }

  /** Pruning fails exactly when a doomed height is being saved. When it succeeds, it keeps the snapshots whose
      height is among the `retain` greatest distinct heights visited, and whatever the scan does not visit. */
  lemma PruneExact(m: KVMap, retain: uint32, saving: set<uint64>)
    requires IsIndex(m)
    ensures AllDecode(VisitedKeys(m))
    ensures var keys, o := VisitedKeys(m), PruneFrom(VisitedKeys(m), {}, retain, saving);
            && (o.ok <==> NoneSaving(keys, Heights(keys), retain, saving))
            && (o.ok ==> |o.deleted| == |m| - |Pruned(m, retain, saving)|)
            && (o.ok ==> forall k :: k in Pruned(m, retain, saving) <==>
                           k in m && (k in keys ==> |Newer(Heights(keys), HeightOf(k))| < retain))
  {
    var keys, o := VisitedKeys(m), PruneFrom(VisitedKeys(m), {}, retain, saving);
    VisitedDescend(m);
    assert keys[0..] == keys;
    PruneFromExact(keys, 0, {}, retain, saving);
    if o.ok {
      FilteredMembers(keys, Heights(keys), retain);
      FilteredDistinct(keys, Heights(keys), retain);
      assert forall k :: k in o.deleted ==> k in m;
      RemovedCount(m, o.deleted);
    }
  }

  lemma {:induction false} FilteredMembers(keys: seq<Key>, hs: set<uint64>, retain: uint32)
    requires AllDecode(keys)
    ensures forall k :: k in Filtered(keys, hs, retain) <==> k in keys && DecodeKey(k).Some? && Doomed(hs, retain, k)
  {
    if keys != [] {
      FilteredMembers(keys[1..], hs, retain);
      assert keys == [keys[0]] + keys[1..];
    }
  }

  lemma {:induction false} FilteredDistinct(keys: seq<Key>, hs: set<uint64>, retain: uint32)
    requires AllDecode(keys) && Ordered(false, keys)
    ensures |Elements(Filtered(keys, hs, retain))| == |Filtered(keys, hs, retain)|
  {
    if keys != [] {
      FilteredDistinct(keys[1..], hs, retain);
      FilteredMembers(keys[1..], hs, retain);
      if keys[0] in keys[1..] {
        var i :| 1 <= i < |keys| && keys[i] == keys[0];
        BeforeIsStrict(false, keys[0], keys[i]);
        assert false;
      }
      var f := Filtered(keys[1..], hs, retain);
      assert Elements([keys[0]] + f) == {keys[0]} + Elements(f);
      assert [] + f == f;
    }
  }

  lemma RemovedCount(m: KVMap, deleted: seq<Key>)
    requires (forall k :: k in deleted ==> k in m) && |Elements(deleted)| == |deleted|
    ensures |m - Elements(deleted)| == |m| - |deleted|
  {
    var gone := Elements(deleted);
    assert (m - gone).Keys == m.Keys - gone;
    assert |m - gone| == |(m - gone).Keys| && |m| == |m.Keys|;
    assert gone <= m.Keys;
  }

  /** The published contract: with no save in progress and no all-ones key, exactly the snapshots at the
      `retain` greatest distinct heights stay. */
  lemma PruneKeepsNewest(m: KVMap, retain: uint32)
    requires forall k :: k in m ==> DecodeKey(k).Some? && DecodeKey(k).value != Id(MAX_HEIGHT, MAX_FORMAT)
    ensures AllDecode(VisitedKeys(m)) && PruneFrom(VisitedKeys(m), {}, retain, {}).ok
    ensures forall k :: k in Pruned(m, retain, {}) <==>
              k in m && |Newer(set j | j in m :: HeightOf(j), HeightOf(k))| < retain
  {
    AllVisited(m);
    PruneExact(m, retain, {});
  }

  lemma AllVisited(m: KVMap)
    requires forall k :: k in m ==> DecodeKey(k).Some? && DecodeKey(k).value != Id(MAX_HEIGHT, MAX_FORMAT)
    ensures AllDecode(VisitedKeys(m)) && forall k :: k in VisitedKeys(m) <==> k in m
    ensures Heights(VisitedKeys(m)) == set j | j in m :: HeightOf(j)
  {
    var keys := VisitedKeys(m);
    VisitedDescend(m);
    forall k | k in m ensures k in keys {
      KeyRoundTrip(DecodeKey(k).value, k);
      VisitedExact(DecodeKey(k).value);
    }
    SameHeights(m, keys);
  }

  lemma SameHeights(m: KVMap, keys: seq<Key>)
    requires AllDecode(keys) && (forall k :: k in keys <==> k in m) && forall k :: k in m ==> DecodeKey(k).Some?
    ensures Heights(keys) == set j | j in m :: HeightOf(j)
  {
    forall h ensures h in Heights(keys) <==> h in (set j | j in m :: HeightOf(j)) {
      if j :| j in m && HeightOf(j) == h {
        assert j in keys;
        var i :| 0 <= i < |keys| && keys[i] == j;
      }
      if h in Heights(keys) {
        var i :| 0 <= i < |keys| && HeightOf(keys[i]) == h;
        assert keys[i] in keys;
      }
    }
  }

  /** The all-ones key survives every pruning, even with nothing to retain: the scan's end is exclusive. */
  lemma AllOnesSurvives(m: KVMap, retain: uint32, saving: set<uint64>)
    requires EncodeKey(Id(MAX_HEIGHT, MAX_FORMAT)) in m && IsIndex(m)
    requires PruneFrom(VisitedKeys(m), {}, retain, saving).ok
    ensures EncodeKey(Id(MAX_HEIGHT, MAX_FORMAT)) in Pruned(m, retain, saving)
  {
    VisitedExact(Id(MAX_HEIGHT, MAX_FORMAT));
    PruneExact(m, retain, saving);
  }

  /** The first key of a scan belongs to the latest snapshot, all-ones aside. */
  lemma FirstIsLatest(m: KVMap, id: Id)
    requires IsIndex(m) && EncodeKey(id) in m && id != Id(MAX_HEIGHT, MAX_FORMAT)
    ensures VisitedKeys(m) != [] && DecodeKey(VisitedKeys(m)[0]).Some?
    ensures id == DecodeKey(VisitedKeys(m)[0]).value || Earlier(id, DecodeKey(VisitedKeys(m)[0]).value)
  {
    var keys := VisitedKeys(m);
    VisitedExact(id);
    VisitedDescend(m);
    var i :| 0 <= i < |keys| && keys[i] == EncodeKey(id);
    var first := DecodeKey(keys[0]).value;
    KeyRoundTrip(first, keys[0]);
    KeyRoundTrip(id, keys[i]);
    if i > 0 {
      assert Before(false, keys[0], keys[i]);
      KeyOrder(id, first);
    }
  }

  // ---------- the store ----------

  class Store {
    var db: KVMap
    var saving: set<uint64>

    constructor (db: KVMap)
      ensures this.db == db && saving == {}
    {
      this.db, saving := db, {};
    }

    method Delete(height: uint64, format: uint32) returns (ok: bool)
      modifies this`db
      ensures ok <==> height !in saving
      ensures db == if ok then old(db) - {EncodeKey(Id(height, format))} else old(db)
    {
      if height in saving { return false; }
      db := db - {EncodeKey(Id(height, format))};
      return true;
    }

    /** The metadata under the greatest key visited. */
    method GetLatest() returns (latest: Option<Bytes>)
      ensures latest == if VisitedKeys(db) == [] then None else Some(db[VisitedKeys(db)[0]])
    {
      var iter := ListEntries(false, Visited(), db);
      assert EntryKeys(iter) == VisitedKeys(db);
      if |iter| == 0 { return None; }
      assert iter[0].key == EntryKeys(iter)[0];
      return Some(iter[0].value);
    }

    /** Every snapshot visited, newest first. */
    method List() returns (out: seq<Bytes>)
      ensures |out| == |VisitedKeys(db)| && forall i :: 0 <= i < |out| ==> out[i] == db[VisitedKeys(db)[i]]
    {
      var iter := ListEntries(false, Visited(), db);
      assert EntryKeys(iter) == VisitedKeys(db);
      out := [];
      for i := 0 to |iter|
        invariant |out| == i && forall j :: 0 <= j < i ==> out[j] == iter[j].value
      {
        out := out + [iter[i].value];
      }
      assert forall i :: 0 <= i < |iter| ==> EntryKeys(iter)[i] == iter[i].key;
    }

    method Prune(retain: uint32) returns (pruned: nat, ok: bool)
      modifies this`db
      ensures db == Pruned(old(db), retain, saving)
      ensures ok == PruneFrom(VisitedKeys(old(db)), {}, retain, saving).ok
      ensures pruned == if ok then |PruneFrom(VisitedKeys(old(db)), {}, retain, saving).deleted| else 0
    {
      var iter := ListEntries(false, Visited(), db);
      assert EntryKeys(iter) == VisitedKeys(db);
      pruned, ok := PruneScan(EntryKeys(iter), retain);
    }

    /** The loop of the source's `Prune` over the iterator's keys. */
    method PruneScan(keys: seq<Key>, retain: uint32) returns (pruned: nat, ok: bool)
      modifies this`db
      ensures db == old(db) - Elements(PruneFrom(keys, {}, retain, saving).deleted)
      ensures ok == PruneFrom(keys, {}, retain, saving).ok
      ensures pruned == if ok then |PruneFrom(keys, {}, retain, saving).deleted| else 0
    {
      pruned := 0;
      var skip: set<uint64> := {};
      ghost var deleted: seq<Key> := [];
      ghost var all := PruneFrom(keys, {}, retain, saving);
      assert keys[0..] == keys && Then([], all) == all;
      var i := 0;
      while i < |keys|
        invariant 0 <= i <= |keys| && pruned == |deleted|
        invariant db == old(db) - Elements(deleted)
        invariant all == Then(deleted, PruneFrom(keys[i..], skip, retain, saving))
      {
        var id := DecodeKey(keys[i]);
        Advance(all, deleted, keys, i, skip, retain, saving);
        if id.None? { return 0, false; }
        if id.value.height in skip || |skip| % TWO_32 < retain {
          skip := skip + {id.value.height};
        } else {
          KeyRoundTrip(id.value, keys[i]);
          RemoveOneMore(old(db), deleted, keys[i]);
          var done := Delete(id.value.height, id.value.format);
          if !done { return 0, false; }
          deleted, pruned := deleted + [keys[i]], pruned + 1;
        }
        i := i + 1;
      }
      assert deleted + [] == deleted;
      ok := true;
    }
  }

  lemma RemoveOneMore(m: KVMap, deleted: seq<Key>, k: Key)
    ensures m - Elements(deleted) - {k} == m - Elements(deleted + [k])
  {
    assert Elements(deleted + [k]) == Elements(deleted) + {k};
  }

  /** One round of the scan. */
  lemma Advance(all: Outcome, deleted: seq<Key>, keys: seq<Key>, i: nat, skip: set<uint64>, retain: uint32,
                saving: set<uint64>)
    requires i < |keys| && all == Then(deleted, PruneFrom(keys[i..], skip, retain, saving))
    ensures match DecodeKey(keys[i])
            case None => all == Outcome(deleted, false)
            case Some(id) =>
              if id.height in skip || |skip| % TWO_32 < retain then
                all == Then(deleted, PruneFrom(keys[i + 1..], skip + {id.height}, retain, saving))
              else if id.height in saving then all == Outcome(deleted, false)
              else all == Then(deleted + [keys[i]], PruneFrom(keys[i + 1..], skip, retain, saving))
  {
    assert keys[i..][0] == keys[i] && keys[i..][1..] == keys[i + 1..];
    var rest := PruneFrom(keys[i + 1..], skip, retain, saving).deleted;
    assert deleted + [] == deleted && deleted + ([keys[i]] + rest) == deleted + [keys[i]] + rest;
  }

  ghost function Then(deleted: seq<Key>, o: Outcome): Outcome {
    Outcome(deleted + o.deleted, o.ok)
  }
}

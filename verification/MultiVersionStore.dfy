/** `multiversion.Store` run in place: the loops of `store.go` over the shared maps, each proved to
    compute the corresponding function of module MultiVersion. */
module MultiVersionStore {
  import opened Bytes
  import opened VersionedItem
  import opened MergeIterator
  import opened MultiVersion
  import opened Listing
  import opened Validation

  /** `sort.Ints` over the keys of a set. */
  method SortInts(s: set<nat>) returns (r: seq<nat>)
    ensures forall i, j :: 0 <= i < j < |r| ==> r[i] < r[j]
    ensures forall x :: x in r <==> x in s
  {
    r := [];
    var todo := s;
    while todo != {}
      invariant todo <= s
      invariant forall i, j :: 0 <= i < j < |r| ==> r[i] < r[j]
      invariant forall x :: x in r <==> x in s && x !in todo
      invariant forall i, x :: 0 <= i < |r| && x in todo ==> r[i] < x
      decreases todo
    {
      var m := LeastOf(todo);
      r, todo := r + [m], todo - {m};
    }
  }

  method LeastOf(s: set<nat>) returns (m: nat)
    requires s != {}
    ensures m in s && forall x :: x in s ==> m <= x
  {
    m :| m in s;
    var todo := s;
    while todo != {}
      invariant m in s && todo <= s && forall x :: x in s && x !in todo ==> m <= x
      decreases todo
    {
      var k :| k in todo;
      if k < m { m := k; }
      todo := todo - {k};
    }
  }

  // ----- What the loops compute -----

  /** `removeOldWriteset`'s loop over the old keys. */
  function DropKeys(vs: map<Key, Item>, index: nat, keys: seq<Key>, keep: set<Key>): map<Key, Item> {
    if keys == [] then vs
    else
      var v := DropKeys(vs, index, keys[..|keys| - 1], keep);
      var key := keys[|keys| - 1];
      if key !in keep && key in v then v[key := v[key] - {index}] else v
  }

  lemma {:induction false} DropKeysIs(vs: map<Key, Item>, index: nat, keys: seq<Key>, keep: set<Key>)
    ensures DropKeys(vs, index, keys, keep) == map k | k in vs :: Without(vs[k], index, k in keys && k !in keep)
  {
    if keys != [] {
      var front, key := keys[..|keys| - 1], keys[|keys| - 1];
      DropKeysIs(vs, index, front, keep);
      assert keys == front + [key];
      assert key in vs ==> vs[key] - {index} - {index} == vs[key] - {index};
    }
  }

  /** Storing the new versions of the keys done so far. */
  function PutSome(vs: map<Key, Item>, news: map<Key, ValueItem>, done: set<Key>): map<Key, Item>
    requires done <= news.Keys
  {
    map k | k in vs.Keys + done ::
      if k in done then (if k in vs then vs[k] else map[])[news[k].index := news[k]] else vs[k]
  }

  function PutOne(vs: map<Key, Item>, v: ValueItem, key: Key): map<Key, Item> {
    vs[key := (if key in vs then vs[key] else map[])[v.index := v]]
  }

  lemma PutSomeStep(vs: map<Key, Item>, news: map<Key, ValueItem>, todo: set<Key>, key: Key)
    requires key in todo && todo <= news.Keys
    ensures PutSome(vs, news, news.Keys - (todo - {key})) == PutOne(PutSome(vs, news, news.Keys - todo), news[key], key)
  {
    assert news.Keys - (todo - {key}) == news.Keys - todo + {key};
  }

  lemma PutSomeAll(s: Shared, news: map<Key, ValueItem>)
    ensures PutSome(s.versions, news, news.Keys - news.Keys) == s.versions
    ensures PutSome(s.versions, news, news.Keys - {}) == PutAll(s, news).versions
  {
    assert news.Keys - news.Keys == {} && news.Keys - {} == news.Keys;
  }

  lemma RemovalKeepsRecords(s: Shared, index: nat, news: map<Key, ValueItem>)
    ensures var u := PutAll(RemoveOldWriteset(s, index, news.Keys), news);
            u.readsets == s.readsets && u.iteratesets == s.iteratesets
  {
  }

  lemma ReplaceIs(s: Shared, index: nat, news: map<Key, ValueItem>, t: Shared)
    requires t.versions == PutAll(RemoveOldWriteset(s, index, news.Keys), news).versions
    requires t.writesetKeys == (s.writesetKeys - {index})[index := Sorted(true, news.Keys)]
    requires t.readsets == s.readsets && t.iteratesets == s.iteratesets
    ensures t == Replace(s, index, news)
  {
    hide PutAll, RemoveOldWriteset, Sorted;
    assert t.writesetKeys == s.writesetKeys[index := Sorted(true, news.Keys)];
    RemovalKeepsRecords(s, index, news);
  }

  /** Conflicts found among the keys done so far. */
  ghost function ConflictsAmong(s: Shared, parent: KVMap, i: nat, rs: ReadSet, done: set<Key>): set<nat> {
    set k | k in done && k in rs && ReadConflicts(s, parent, i, k, rs[k]) :: LatestFor(s, i, k).value.index
  }

  lemma ConflictsStep(s: Shared, parent: KVMap, i: nat, rs: ReadSet, done: set<Key>, k: Key)
    requires k in rs
    ensures ConflictsAmong(s, parent, i, rs, done + {k}) == ConflictsAmong(s, parent, i, rs, done)
          + if ReadConflicts(s, parent, i, k, rs[k]) then {LatestFor(s, i, k).value.index} else {}
  {
  }

  ghost predicate ReadsValidAmong(s: Shared, parent: KVMap, i: nat, rs: ReadSet, done: set<Key>) {
    forall k :: k in done && k in rs ==> ReadValid(s, parent, i, k, rs[k])
  }

  /** `WriteLatestToStore`'s loop over the sorted keys. */
  ghost function FlushKeys(parent: KVMap, vs: map<Key, Item>, keys: seq<Key>): KVMap {
    if keys == [] then parent
    else FlushKey(FlushKeys(parent, vs, keys[..|keys| - 1]), vs, keys[|keys| - 1])
  }

  ghost function FlushKey(parent: KVMap, vs: map<Key, Item>, key: Key): KVMap {
    if key !in vs || LatestFinal(vs[key]).None? then parent
    else if LatestFinal(vs[key]).value.value.None? then parent - {key}
    else parent[key := LatestFinal(vs[key]).value.value.value]
  }

  lemma {:induction false} FlushKeysIs(parent: KVMap, vs: map<Key, Item>, keys: seq<Key>, k: Key)
    ensures Lookup(FlushKeys(parent, vs, keys), k)
         == if k in keys && k in vs && LatestFinal(vs[k]).Some? then LatestFinal(vs[k]).value.value
            else Lookup(parent, k)
  {
    if keys != [] {
      FlushKeysIs(parent, vs, keys[..|keys| - 1], k);
      assert keys == keys[..|keys| - 1] + [keys[|keys| - 1]];
    }
  }

  lemma FlushAll(s: Shared, parent: KVMap, keys: seq<Key>)
    requires forall k :: k in keys <==> k in s.versions
    ensures FlushKeys(parent, s.versions, keys) == Flushed(s, parent)
  {
    forall k: Key ensures Lookup(FlushKeys(parent, s.versions, keys), k) == Lookup(Flushed(s, parent), k) {
      FlushKeysIs(parent, s.versions, keys, k);
    }
    var writes := map k | k in s.versions && LatestFinal(s.versions[k]).Some? :: LatestFinal(s.versions[k]).value.value;
    OverlayUnique(parent, writes, FlushKeys(parent, s.versions, keys));
  }

  // ----- The store -----

  class Store {
    var versions: map<Key, Item>
    var writesetKeys: map<nat, seq<Key>>
    var readsets: map<nat, ReadSet>
    var iteratesets: map<nat, seq<Tracker>>
    var parent: KVMap

    function State(): Shared reads this {
      Shared(versions, writesetKeys, readsets, iteratesets)
    }

    constructor (parent: KVMap)
      ensures State() == Fresh && this.parent == parent
    {
      versions, writesetKeys, readsets, iteratesets := map[], map[], map[], map[];
      this.parent := parent;
    }

    method RemoveOldWriteset(index: nat, keep: set<Key>)
      modifies this`versions, this`writesetKeys
      ensures State() == MultiVersion.RemoveOldWriteset(old(State()), index, keep)
    {
      ghost var was := State();
      hide Without;
      if index !in writesetKeys {
        DropNothing(was, index, keep);
        return;
      }
      var keys := writesetKeys[index];
      writesetKeys := writesetKeys - {index};
      var n := 0;
      while n < |keys|
        invariant 0 <= n <= |keys|
        invariant versions == DropKeys(was.versions, index, keys[..n], keep)
        invariant writesetKeys == was.writesetKeys - {index}
      {
        var key := keys[n];
        assert keys[..n + 1][..n] == keys[..n];
        if key !in keep && key in versions {
          versions := versions[key := versions[key] - {index}];
        }
        n := n + 1;
      }
      assert keys[..|keys|] == keys;
      DropKeysIs(was.versions, index, keys, keep);
      assert versions == MultiVersion.RemoveOldWriteset(was, index, keep).versions;
    }

    /** Stores one version of each listed key, in any order. */
    method PutVersions(news: map<Key, ValueItem>)
      modifies this`versions
      ensures State() == PutAll(old(State()), news)
    {
      hide PutSome;
      ghost var was := State();
      PutSomeAll(was, news);
      var todo := news.Keys;
      while todo != {}
        invariant todo <= news.Keys
        invariant versions == PutSome(was.versions, news, news.Keys - todo)
        decreases todo
      {
        var key :| key in todo;
        var item := if key in versions then versions[key] else map[];
        PutSomeStep(was.versions, news, todo, key);
        versions := versions[key := item[news[key].index := news[key]]];
        todo := todo - {key};
      }
    }

    /** The common part of `SetWriteset` and `SetEstimatedWriteset`. */
    method ReplaceVersions(index: nat, news: map<Key, ValueItem>)
      modifies this`versions, this`writesetKeys
      ensures State() == Replace(old(State()), index, news)
    {
      ghost var was := State();
      RemoveOldWriteset(index, news.Keys);
      PutVersions(news);
      var keys := SortKeys(true, news.Keys);
      writesetKeys := writesetKeys[index := keys];
      ReplaceIs(was, index, news, State());
    }

    method SetWriteset(index: nat, incarnation: int, ws: WriteSet)
      modifies this`versions, this`writesetKeys
      ensures State() == MultiVersion.SetWriteset(old(State()), index, incarnation, ws)
    {
      ReplaceVersions(index, PublishedItems(index, incarnation, ws));
    }

    method SetEstimatedWriteset(index: nat, incarnation: int, ws: WriteSet)
      modifies this`versions, this`writesetKeys
      ensures State() == MultiVersion.SetEstimatedWriteset(old(State()), index, incarnation, ws)
    {
      ReplaceVersions(index, EstimateItems(index, incarnation, ws.Keys));
    }

    method InvalidateWriteset(index: nat, incarnation: int)
      modifies this`versions
      ensures State() == MultiVersion.InvalidateWriteset(old(State()), index, incarnation)
    {
      if index !in writesetKeys { return; }
      PutVersions(EstimateItems(index, incarnation, Elements(writesetKeys[index])));
    }

    method CollectIteratorItems(index: nat) returns (items: set<Key>)
      ensures items == Collected(State(), index)
    {
      items := {};
      var i := 0;
      while i < index
        invariant 0 <= i <= index && items == Collected(State(), i)
      {
        if i in writesetKeys {
          var n, keys := 0, writesetKeys[i];
          while n < |keys|
            invariant 0 <= n <= |keys|
            invariant items == Collected(State(), i) + Elements(keys[..n])
          {
            assert keys[..n + 1] == keys[..n] + [keys[n]];
            items := items + {keys[n]};
            n := n + 1;
          }
          assert keys[..|keys|] == keys;
        }
        i := i + 1;
      }
    }

    /** Aborts and the verdict arrive on two channels and the first to be received decides. */
    method ValidateIterator(index: nat, t: Tracker) returns (ok: bool)
      requires Inv(State())
      ensures MayAnswer(State(), parent, index, t, ok)
    {
      hide Inv, ReplayFrom, EstimatedAmong, Collected, EntriesOf, Sorted, LatestFor, MultiVersion.ValidateIterator;
      var items := CollectIteratorItems(index);
      var cache := SortKeys(t.ascending, KeysIn(t.range, items + t.writeset.Keys));
      var entries := ListEntries(t.ascending, t.range, parent);
      forall k | k in cache && k !in t.writeset ensures LatestFor(State(), index, k).Some? {
        ReplayFindsVersions(State(), index, k);
      }
      var it := new ReplayIterator(State(), index, t.ascending, t.writeset, entries, cache);
      var valid := Replay(it, t.iteratedKeys, t.earlyStop);
      ReplayIsValidate(State(), parent, index, t);
      var abortFirst: bool := *;
      ok := if |it.aborts| == 0 then valid else if |it.aborts| == 1 then valid && !abortFirst else false;
    }

    method CheckIteratorAtIndex(index: nat) returns (valid: bool)
      requires Inv(State())
      ensures MayPass(State(), parent, index, IteratesetAt(State(), index), valid)
    {
      if index !in iteratesets { return true; }
      valid := true;
      var ts := iteratesets[index];
      for n := 0 to |ts|
        invariant MayPass(State(), parent, index, ts[..n], valid)
      {
        var ok := ValidateIterator(index, ts[n]);
        PassMore(State(), parent, index, ts, n, valid, ok);
        valid := valid && ok;
      }
      assert ts[..|ts|] == ts;
    }

    method CheckReadsetAtIndex(index: nat) returns (valid: bool, conflicts: seq<nat>)
      ensures valid <==> ReadsetValid(State(), parent, index)
      ensures Inv(State()) ==>
                (valid <==> forall k :: k in ReadsetAt(State(), index) ==>
                              !ReadFails(State(), parent, index, k, ReadsetAt(State(), index)[k]))
      ensures forall x :: x in conflicts <==> x in Conflicts(State(), parent, index)
      ensures forall i, j :: 0 <= i < j < |conflicts| ==> conflicts[i] < conflicts[j]
    {
      if Inv(State()) { ReadsetFailsExact(State(), parent, index); }
      hide Inv, ReadFails;
      valid := true;
      var conflictSet: set<nat> := {};
      var readset := ReadsetAt(State(), index);
      var todo := readset.Keys;
      while todo != {}
        invariant todo <= readset.Keys
        invariant valid <==> ReadsValidAmong(State(), parent, index, readset, readset.Keys - todo)
        invariant conflictSet == ConflictsAmong(State(), parent, index, readset, readset.Keys - todo)
        decreases todo
      {
        var k :| k in todo;
        ConflictsStep(State(), parent, index, readset, readset.Keys - todo, k);
        assert readset.Keys - todo + {k} == readset.Keys - (todo - {k});
        if !ReadValid(State(), parent, index, k, readset[k]) { valid := false; }
        if ReadConflicts(State(), parent, index, k, readset[k]) {
          conflictSet := conflictSet + {LatestFor(State(), index, k).value.index};
        }
        todo := todo - {k};
      }
      assert readset.Keys - todo == readset.Keys;
      assert conflictSet == Conflicts(State(), parent, index);
      conflicts := SortInts(conflictSet);
    }

    method ValidateTransactionState(index: nat) returns (valid: bool, conflicts: seq<nat>)
      requires Inv(State())
      ensures valid ==> MayPass(State(), parent, index, IteratesetAt(State(), index), true)
      ensures valid ==> ReadsetValid(State(), parent, index)
      ensures !valid ==>
                || MayPass(State(), parent, index, IteratesetAt(State(), index), false)
                || !ReadsetValid(State(), parent, index)
      ensures valid ==> ValidState(State(), parent, index)
      ensures NoEstimatesBefore(State(), index) ==> (valid <==> ValidState(State(), parent, index))
      ensures forall x :: x in conflicts <==> x in Conflicts(State(), parent, index)
      ensures forall i, j :: 0 <= i < j < |conflicts| ==> conflicts[i] < conflicts[j]
    {
      var iteratorValid := CheckIteratorAtIndex(index);
      PassIsVerdict(State(), parent, index, IteratesetAt(State(), index), iteratorValid);
      var readsetValid;
      readsetValid, conflicts := CheckReadsetAtIndex(index);
      valid := iteratorValid && readsetValid;
    }

    method WriteLatestToStore()
      modifies this`parent
      ensures parent == Flushed(State(), old(parent))
      ensures LatestWritten(State(), old(parent), parent)
    {
      hide LatestWritten, Flushed, FlushKeys;
      FlushExact(State(), parent);
      ghost var was := parent;
      var keys := SortKeys(true, versions.Keys);
      FlushList(keys);
      FlushAll(State(), was, keys);
    }

    /** The loop of the flush over the sorted keys. */
    method FlushList(keys: seq<Key>)
      modifies this`parent
      ensures parent == FlushKeys(old(parent), versions, keys)
    {
      var n := 0;
      while n < |keys|
        invariant 0 <= n <= |keys|
        invariant parent == FlushKeys(old(parent), versions, keys[..n])
      {
        assert keys[..n + 1][..n] == keys[..n];
        FlushOne(keys[n]);
        n := n + 1;
      }
      assert keys[..|keys|] == keys;
    }

    method FlushOne(key: Key)
      modifies this`parent
      ensures parent == FlushKey(old(parent), versions, key)
    {
      if key !in versions { return; }
      var latest := LatestNonEstimate(versions[key]);
      if latest.None? { return; }
      if latest.value.value.None? {
        parent := parent - {key};
        return;
      }
      parent := parent[key := latest.value.value.value];
    }
  }

  lemma DropNothing(s: Shared, index: nat, keep: set<Key>)
    requires index !in s.writesetKeys
    ensures RemoveOldWriteset(s, index, keep) == s
  {
    assert RemoveOldWriteset(s, index, keep).versions == s.versions;
    assert s.writesetKeys - {index} == s.writesetKeys;
  }

  method LatestNonEstimate(item: Item) returns (r: Option<ValueItem>)
    ensures r == LatestFinal(item)
  {
    var bound := 0;
    var todo := item.Keys;
    while todo != {}
      invariant forall i :: i in item && i !in todo ==> i < bound
      decreases todo
    {
      var i :| i in todo;
      if bound <= i { bound := i + 1; }
      todo := todo - {i};
    }
    LatestAnyBound(item, bound);
    r := LatestFinalBefore(item, bound);
  }
}

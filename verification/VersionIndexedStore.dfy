/** `VersionIndexedStore` and its tracked merge iterator run in place (`mvkv.go`, `mergeiterator.go`,
    `memiterator.go`, `trackediterator.go`), each call proved to take the step of module Execution. */
module VersionIndexedStore {
  import opened Bytes
  import opened MergeIterator
  import opened MultiVersion
  import opened Execution
  import opened Listing
  import opened Aborts
  import MultiVersionStore

  class View {
    const index: nat
    const incarnation: int
    const mvs: MultiVersionStore.Store
    var readset: ReadSet
    var writeset: WriteSet
    var iterateset: seq<TrackedIterator>

    /** The state of this execution, for the record-keeping functions of module Execution. */
    ghost function Abs(): Local reads this, iterateset {
      Local([], readset, writeset,
            seq(|iterateset|, h requires 0 <= h < |iterateset| reads this, iterateset => iterateset[h].Abs()))
    }

    constructor (mvs: MultiVersionStore.Store, index: nat, incarnation: int)
      ensures this.mvs == mvs && this.index == index && this.incarnation == incarnation
      ensures readset == map[] && writeset == map[] && iterateset == []
    {
      this.mvs, this.index, this.incarnation := mvs, index, incarnation;
      readset, writeset, iterateset := map[], map[], [];
    }

    /** What shared reads meet right now. */
    function Shared(): Key -> Source reads this, mvs {
      SharedSource(mvs.State(), mvs.parent, index)
    }

    method UpdateReadSet(k: Key, v: Option<Bytes>)
      modifies this`readset
      ensures readset == Execution.UpdateReadSet(old(readset), k, v)
    {
      var values := if k in readset then readset[k] else [];
      var n := 0;
      while n < |values|
        invariant 0 <= n <= |values|
        invariant forall j :: 0 <= j < n ==> !BytesEqual(v, values[j])
        invariant readset == old(readset)
      {
        if BytesEqual(v, values[n]) {
          assert HasEqual(values, v);
          readset := readset[k := values];
          return;
        }
        n := n + 1;
      }
      readset := readset[k := values + [v]];
    }

    /** Returns the answer, or the index of the estimate that aborts the execution. */
    method Get(k: Key) returns (abort: Option<nat>, v: Option<Bytes>)
      modifies this`readset
      ensures match Read(writeset, old(readset), Shared(), k)
              case ReadAbort(writer) => abort == Some(writer) && readset == old(readset)
              case Value(rs, value) => abort == None && v == value && readset == rs
      ensures Inv(mvs.State()) ==>
                forall w: nat :: abort == Some(w) <==>
                                 Unknown(writeset, old(readset), k) && EstimatedBy(mvs.State(), index, k, w)
    {
      if Inv(mvs.State()) {
        forall w: nat { ReadAbortsExact(writeset, readset, mvs.State(), mvs.parent, index, k, w); }
      }
      hide Inv, Unknown, EstimatedBy;
      abort, v := None, None;
      if k in writeset { return None, writeset[k]; }
      if k in readset && |readset[k]| > 0 { return None, readset[k][0]; }
      var item := LatestFor(mvs.State(), index, k);
      if item.Some? {
        if item.value.IsEstimate() { return Some(item.value.index), None; }
        v := item.value.value;
      } else {
        v := Lookup(mvs.parent, k);
      }
      UpdateReadSet(k, v);
    }

    method Set(k: Key, v: Option<Bytes>)
      modifies this`writeset
      ensures writeset == old(writeset)[k := v]
    {
      writeset := writeset[k := v];
    }

    /** Opens a tracked iterator over the collected keys, the own writes and the own reads. */
    method OpenIterator(r: Range, ascending: bool) returns (it: TrackedIterator)
      modifies this`iterateset
      ensures fresh(it) && it.view == this && iterateset == old(iterateset) + [it]
      ensures it.Abs()
           == Opened(Local([], readset, writeset, []), mvs.parent, Collected(mvs.State(), index), r, ascending)
    {
      var items := mvs.CollectIteratorItems(index);
      var cache := SortKeys(ascending, KeysIn(r, items + writeset.Keys + readset.Keys));
      var parent := ListEntries(ascending, r, mvs.parent);
      it := new TrackedIterator(this, Tracker(r, ascending, writeset, {}, None), parent, cache);
      iterateset := iterateset + [it];
    }

    /** Publishes the execution. Empty readsets and iteratesets leave the stored ones in place. */
    method WriteToMultiVersionStore()
      modifies mvs
      ensures mvs.State() == PublishedState(old(mvs.State()), index, incarnation, Abs())
      ensures mvs.parent == old(mvs.parent)
    {
      hide SetWriteset, Trackers;
      mvs.SetWriteset(index, incarnation, writeset);
      if readset != map[] { mvs.readsets := mvs.readsets[index := readset]; }
      if iterateset != [] {
        var ts := ListTrackers();
        mvs.iteratesets := mvs.iteratesets[index := ts];
      }
    }

    method ListTrackers() returns (ts: seq<Tracker>)
      ensures ts == Trackers(Abs().iters)
    {
      ts := [];
      while |ts| < |iterateset|
        invariant |ts| <= |iterateset| && forall h :: 0 <= h < |ts| ==> ts[h] == iterateset[h].tracker
      {
        ts := ts + [iterateset[|ts|].tracker];
      }
    }

    method WriteEstimatesToMultiVersionStore()
      modifies mvs
      ensures mvs.State() == SetEstimatedWriteset(old(mvs.State()), index, incarnation, writeset)
      ensures mvs.parent == old(mvs.parent)
    {
      mvs.SetEstimatedWriteset(index, incarnation, writeset);
    }
  }

  class TrackedIterator {
    const view: View
    var tracker: Tracker
    var parent: seq<Entry>
    var cache: seq<Key>
    ghost var visited: seq<Key>
    ghost var nexts: nat
    ghost var ended: bool

    ghost function Abs(): Iter reads this {
      Iter(tracker, parent, cache, true, visited, nexts, ended)
    }

    /** Where skipping from here leads. */
    ghost function Skips(): Skip reads this, view, view.mvs {
      SkipUntilExists(tracker.ascending, parent, cache, view.writeset, view.readset, view.Shared())
    }

    constructor (view: View, tracker: Tracker, parent: seq<Entry>, cache: seq<Key>)
      ensures this.view == view && Abs() == Iter(tracker, parent, cache, true, [], 0, false)
    {
      this.view, this.tracker, this.parent, this.cache := view, tracker, parent, cache;
      this.visited, this.nexts, this.ended := [], 0, false;
    }

    method SkipCacheDeletes(until: Option<Key>) returns (abort: Option<nat>)
      modifies this`cache, view`readset
      ensures match SkipDeletes(tracker.ascending, old(cache), until, view.writeset, old(view.readset), view.Shared())
              case DeletesAbort(writer) => abort == Some(writer)
              case DeletesAt(c, rs) => abort == None && cache == c && view.readset == rs
    {
      while true
        invariant SkipDeletes(tracker.ascending, old(cache), until, view.writeset, old(view.readset), view.Shared())
               == SkipDeletes(tracker.ascending, cache, until, view.writeset, view.readset, view.Shared())
        decreases |cache|
      {
        if cache == [] { return None; }
        var v;
        abort, v := view.Get(cache[0]);
        if abort.Some? { return; }
        if v.Some? || !(until.None? || Before(tracker.ascending, cache[0], until.value)) { return None; }
        cache := cache[1..];
      }
    }

    method SkipUntilExistsOrInvalid() returns (abort: Option<nat>, ok: bool)
      modifies this`parent, this`cache, view`readset
      ensures match old(Skips())
              case SkipAbort(writer) => abort == Some(writer)
              case SkipAt(p, c, rs, found) =>
                abort == None && ok == found && parent == p && cache == c && view.readset == rs
    {
      ok := false;
      while true
        invariant Skips() == old(Skips())
        decreases |parent| + |cache|
      {
        if parent == [] {
          abort := SkipCacheDeletes(None);
          return abort, cache != [];
        }
        if cache == [] || Before(tracker.ascending, parent[0].key, cache[0]) { return None, true; }
        ghost var before := view.readset;
        var v;
        abort, v := view.Get(cache[0]);
        if abort.Some? { return; }
        if v.Some? { return None, true; }
        ReadAgain(view.writeset, before, view.Shared(), cache[0]);
        if parent[0].key == cache[0] {
          parent, cache := parent[1..], cache[1..];
        } else {
          BeforeTotal(tracker.ascending, parent[0].key, cache[0]);
          abort := SkipCacheDeletes(Some(parent[0].key));
          if abort.Some? { return; }
        }
      }
    }

    method AddKey(k: Key)
      modifies this`tracker, this`visited
      ensures Abs() == Touch(old(Abs()), k)
    {
      tracker := tracker.(iteratedKeys := tracker.iteratedKeys + {k}, earlyStop := Some(k));
      if |visited| == nexts { visited := visited + [k]; }
    }

    /** `Valid`. */
    method IsValid() returns (abort: Option<nat>, valid: bool)
      modifies this, view`readset
      ensures match old(Skips())
              case SkipAbort(writer) => abort == Some(writer)
              case SkipAt(_, _, rs, _) => abort == None && view.readset == rs && valid == SkipFound(old(Skips()))
      ensures old(Skips()).SkipAt? ==>
                Abs() == if SkipFound(old(Skips())) then Shown(old(Abs()), old(Skips()))
                         else End(Placed(old(Abs()), old(Skips())))
    {
      abort, valid := SkipUntilExistsOrInvalid();
      if abort.Some? { return; }
      if valid && (parent != [] || cache != []) {
        AddKey(HeadKey(tracker.ascending, parent, cache));
      } else {
        valid := false;
        tracker := tracker.(earlyStop := None);
        ended := true;
      }
    }

    /** `Key`; None stands for the panic on an exhausted iterator. */
    method GetKey() returns (abort: Option<nat>, key: Option<Key>)
      modifies this, view`readset
      ensures old(Skips()).SkipAbort? ==> abort == Some(old(Skips()).writer)
      ensures old(Skips()).SkipAt? ==> abort == None && (key.Some? <==> SkipFound(old(Skips())))
      ensures SkipFound(old(Skips())) ==>
                && key == Some(HeadKey(tracker.ascending, old(Skips()).parent, old(Skips()).cache))
                && view.readset == old(Skips()).rs && Abs() == Shown(old(Abs()), old(Skips()))
    {
      var valid;
      key := None;
      abort, valid := SkipUntilExistsOrInvalid();
      if abort.Some? || !valid || (parent == [] && cache == []) { return; }
      key := Some(HeadKey(tracker.ascending, parent, cache));
      AddKey(key.value);
    }

    /** `Value`; a value taken from the parent goes into the readset. Not `found` stands for the panic on an
        exhausted iterator. */
    method GetValue() returns (abort: Option<nat>, v: Option<Bytes>, found: bool)
      modifies this, view`readset
      ensures old(Skips()).SkipAbort? ==> abort == Some(old(Skips()).writer)
      ensures old(Skips()).SkipAt? ==> found == SkipFound(old(Skips()))
      ensures old(Skips()).SkipAt? && !found ==> abort == None && view.readset == old(Skips()).rs
      ensures SkipFound(old(Skips())) ==>
                match EntryValue(old(Skips()), tracker.ascending, view.writeset, view.Shared())
                case ReadAbort(writer) => abort == Some(writer)
                case Value(rs, value) =>
                  abort == None && v == value && view.readset == rs && Abs() == Shown(old(Abs()), old(Skips()))
    {
      v := None;
      abort, found := SkipUntilExistsOrInvalid();
      if abort.Some? { return; }
      found := found && (parent != [] || cache != []);
      if !found { return; }
      var k := HeadKey(tracker.ascending, parent, cache);
      if FromCache(tracker.ascending, parent, cache) {
        abort, v := view.Get(cache[0]);
        if abort.Some? { return; }
      } else {
        v := Some(parent[0].value);
        view.UpdateReadSet(parent[0].key, v);
      }
      AddKey(k);
    }

    method Next() returns (abort: Option<nat>, moved: bool)
      modifies this, view`readset
      ensures old(Skips()).SkipAbort? ==> abort == Some(old(Skips()).writer)
      ensures old(Skips()).SkipAt? ==> abort == None && moved == SkipFound(old(Skips()))
      ensures SkipFound(old(Skips())) ==>
                view.readset == old(Skips()).rs && Abs() == Advance(Shown(old(Abs()), old(Skips())))
    {
      abort, moved := SkipUntilExistsOrInvalid();
      if abort.Some? { return; }
      if !moved || (parent == [] && cache == []) { return None, false; }
      AddKey(HeadKey(tracker.ascending, parent, cache));
      if !FromCache(tracker.ascending, parent, cache) {
        parent := parent[1..];
      } else if parent != [] && parent[0].key == cache[0] {
        parent, cache := parent[1..], cache[1..];
      } else {
        cache := cache[1..];
      }
      nexts := nexts + 1;
    }
  }
}

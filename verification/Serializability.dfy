/** The optimistic protocol as a step machine, and its safety theorem: when every transaction's latest
    publication validates, flushing leaves what running them one after another leaves. */
module Serializability {
  import opened Bytes
  import opened VersionedItem
  import opened MergeIterator
  import opened MultiVersion
  import opened Execution
  import opened Simulation
  import opened Replay

  /** A block: its transactions in order, and the parent store. */
  datatype Block = Block(txs: seq<Tx>, parent: KVMap)

  /** `running` are executions in progress; `clean` maps an index to the finished execution it last
      published, unless estimates, an invalidation or a cleared record came after. */
  datatype System = System(shared: Shared, running: map<nat, Local>, clean: map<nat, Local>)

  const Idle := System(Fresh, map[], map[])

  /** A call comes with what it meets: the keys collected for an iterator it opens and the answers to its reads, which
      need not all come from one state of the store. */
  datatype Action =
    | Begin(index: nat)
    | Exec(index: nat, items: set<Key>, src: Key -> Source)
    | Publish(index: nat, incarnation: int)
    | PublishEstimates(index: nat, incarnation: int)
    | InvalidateTx(index: nat, incarnation: int)
    | ClearRecords(index: nat)

  ghost function ExecStep(b: Block, s: System, i: nat, items: set<Key>, src: Key -> Source): Option<System>
    requires i < |b.txs| && i in s.running
  {
    match LocalStep(b.txs[i](s.running[i].hist), s.running[i], b.parent, items, src)
    case Stuck => None
    case Abort(_) => Some(s.(running := s.running - {i}))
    case Stepped(l) => Some(s.(running := s.running[i := l]))
  }

  /** One action, or None when it is not enabled. Actions of different transactions interleave freely. */
  ghost function Do(b: Block, s: System, a: Action): Option<System> {
    if a.index >= |b.txs| then None
    else match a
      case Begin(i) => Some(s.(running := s.running[i := Start]))
      case Exec(i, items, src) => if i in s.running then ExecStep(b, s, i, items, src) else None
      case Publish(i, n) =>
        if i in s.running && b.txs[i](s.running[i].hist).Commit?
        then Some(System(PublishedState(s.shared, i, n, s.running[i]), s.running - {i}, s.clean[i := s.running[i]]))
        else None
      case PublishEstimates(i, n) =>
        if i in s.running
        then Some(s.(shared := SetEstimatedWriteset(s.shared, i, n, s.running[i].writeset), clean := s.clean - {i}))
        else None
      case InvalidateTx(i, n) => Some(s.(shared := InvalidateWriteset(s.shared, i, n), clean := s.clean - {i}))
      case ClearRecords(i) =>
        Some(s.(shared := s.shared.(readsets := s.shared.readsets - {i}, iteratesets := s.shared.iteratesets - {i}),
                clean := s.clean - {i}))
  }

  ghost function Run(b: Block, acts: seq<Action>): Option<System> {
    if acts == [] then Some(Idle)
    else match Run(b, acts[..|acts| - 1])
      case None => None
      case Some(s) => Do(b, s, acts[|acts| - 1])
  }

  /** Running the first `n` transactions one after another. */
  ghost function RunAll(txs: seq<Tx>, parent: KVMap, n: nat): Option<KVMap>
    requires n <= |txs|
  {
    if n == 0 then Some(parent)
    else match RunAll(txs, parent, n - 1)
      case None => None
      case Some(m) => RunAlone(txs[n - 1], m)
  }

  // ----- Values -----

  ghost predicate ParentWithin(dom: Domain, parent: KVMap) {
    forall k: Key :: dom(k, Lookup(parent, k))
  }

  ghost predicate WritesWithin(dom: Domain, op: Op) {
    op.Put? ==> dom(op.key, op.value)
  }

  /** The call reads and writes values the keys may have. */
  ghost predicate TameCall(dom: Domain, b: Block, before: Option<System>, a: Action) {
    a.Exec? && before.Some? && a.index < |b.txs| && a.index in before.value.running ==>
      SourceOk(dom, a.src) && WritesWithin(dom, b.txs[a.index](before.value.running[a.index].hist))
  }

  /** So does every call of the run. */
  ghost predicate Tame(dom: Domain, b: Block, acts: seq<Action>) {
    var n := |acts| - 1;
    acts == [] || (Tame(dom, b, acts[..n]) && TameCall(dom, b, Run(b, acts[..n]), acts[n]))
  }

  lemma {:induction false} TameBefore(dom: Domain, b: Block, acts: seq<Action>, j: nat)
    requires Tame(dom, b, acts) && j <= |acts|
    ensures Tame(dom, b, acts[..j])
    decreases |acts|
  {
    if j < |acts| {
      TameBefore(dom, b, acts[..|acts| - 1], j);
      assert acts[..|acts| - 1][..j] == acts[..j];
    } else {
      assert acts[..j] == acts;
    }
  }

  // ----- Invariant -----

  /** Index `i` holds exactly the versions and records of the finished execution `l`. */
  ghost predicate Holding(s: Shared, i: nat, l: Local) {
    HoldsWrites(s, i, l.writeset) && HoldsRecords(s, i, l)
  }

  ghost predicate HoldsWrites(s: Shared, i: nat, ws: WriteSet) {
    && (forall k: Key :: Holds(s, i, k) <==> k in ws)
    && (forall k: Key :: k in ws ==> ItemAt(s, k)[i].value == ws[k] && !ItemAt(s, k)[i].IsEstimate())
  }

  predicate HoldsRecords(s: Shared, i: nat, l: Local) {
    && (l.readset != map[] ==> i in s.readsets && s.readsets[i] == l.readset)
    && (l.iters != [] ==> i in s.iteratesets && s.iteratesets[i] == Trackers(l.iters))
  }

  predicate ItemWithin(dom: Domain, k: Key, item: ValueItem) {
    item.IsEstimate() || dom(k, item.value)
  }

  ghost predicate ValuesOk(dom: Domain, s: Shared) {
    forall i: nat, k: Key :: Holds(s, i, k) ==> ItemWithin(dom, k, ItemAt(s, k)[i])
  }

  ghost predicate SharedOk(dom: Domain, b: Block, s: Shared) {
    Inv(s) && IndicesBelow(s, |b.txs|) && ValuesOk(dom, s)
  }

  ghost predicate RunningOk(dom: Domain, tx: Tx, l: Local) {
    Follows(dom, tx, l) && forall k :: k in l.writeset ==> dom(k, l.writeset[k])
  }

  ghost predicate CleanOk(dom: Domain, b: Block, s: Shared, i: nat, l: Local) {
    i < |b.txs| && Follows(dom, b.txs[i], l) && b.txs[i](l.hist).Commit? && Holding(s, i, l)
  }

  ghost predicate SystemOk(dom: Domain, b: Block, s: System) {
    && SharedOk(dom, b, s.shared)
    && (forall i :: i in s.running ==> i < |b.txs| && RunningOk(dom, b.txs[i], s.running[i]))
    && (forall i :: i in s.clean ==> CleanOk(dom, b, s.shared, i, s.clean[i]))
  }

  lemma HoldingFrame(s: Shared, t: Shared, i: nat, j: nat, l: Local)
    requires Holding(s, j, l) && SameExcept(s, t, i) && i != j
    requires j in s.readsets ==> j in t.readsets && t.readsets[j] == s.readsets[j]
    requires j in s.iteratesets ==> j in t.iteratesets && t.iteratesets[j] == s.iteratesets[j]
    ensures Holding(t, j, l)
  {
    forall k: Key ensures Holds(t, j, k) <==> k in l.writeset { assert Holds(s, j, k) <==> Holds(t, j, k); }
    forall k: Key | k in l.writeset ensures ItemAt(t, k)[j].value == l.writeset[k] && !ItemAt(t, k)[j].IsEstimate() {
      assert Holds(s, j, k) && Holds(t, j, k);
    }
  }

  /** A change confined to index `i` keeps the shared invariant. */
  lemma SharedFrame(dom: Domain, b: Block, s: Shared, t: Shared, i: nat)
    requires SharedOk(dom, b, s) && Inv(t) && SameExcept(s, t, i) && i < |b.txs|
    requires forall k: Key :: Holds(t, i, k) ==> ItemWithin(dom, k, ItemAt(t, k)[i])
    ensures SharedOk(dom, b, t)
  {
    forall k: Key ensures Bounded(ItemAt(t, k), |b.txs|) {
      forall j | j in ItemAt(t, k) ensures j < |b.txs| {
        if j != i { assert Holds(t, j, k) && Holds(s, j, k) && Bounded(ItemAt(s, k), |b.txs|); }
      }
    }
    forall j: nat, k: Key | Holds(t, j, k) ensures ItemWithin(dom, k, ItemAt(t, k)[j]) {
      if j != i { assert Holds(s, j, k); }
    }
  }

  lemma CleanFrame(dom: Domain, b: Block, s: System, t: Shared, i: nat)
    requires SystemOk(dom, b, s) && SameExcept(s.shared, t, i) && RecordsKept(s.shared, t, i)
    ensures forall j :: j in s.clean && j != i ==> CleanOk(dom, b, t, j, s.clean[j])
  {
    forall j | j in s.clean && j != i ensures CleanOk(dom, b, t, j, s.clean[j]) {
      assert CleanOk(dom, b, s.shared, j, s.clean[j]);
      HoldingFrame(s.shared, t, i, j, s.clean[j]);
    }
  }

  /** A publication leaves exactly the execution's writes and records at its index. */
  lemma PublishHolds(s: Shared, i: nat, n: int, l: Local)
    requires Inv(s)
    ensures Holding(PublishedState(s, i, n, l), i, l)
  {
    var w := SetWriteset(s, i, n, l.writeset);
    ReplaceEffect(s, i, PublishedItems(i, n, l.writeset), w);
    RecordsHold(w, i, n, l);
  }

  /** Where the execution read or iterated over nothing, the records of an earlier one stay. */
  lemma PublishRecords(s: Shared, i: nat, n: int, l: Local, j: nat)
    ensures var t := PublishedState(s, i, n, l);
            && ReadsetAt(t, j) == (if i == j && l.readset != map[] then l.readset else ReadsetAt(s, j))
            && IteratesetAt(t, j) == (if i == j && l.iters != [] then Trackers(l.iters) else IteratesetAt(s, j))
  {
    ReplaceKeepsRecords(s, i, PublishedItems(i, n, l.writeset));
    hide Replace, Trackers;
  }

  lemma RecordsHold(w: Shared, i: nat, n: int, l: Local)
    requires HoldsExactly(w, i, PublishedItems(i, n, l.writeset))
    ensures Holding(SetRecords(w, i, l), i, l)
  {
    WritesHeld(w, SetRecords(w, i, l), i, n, l.writeset);
    RecordsSet(w, i, l);
  }

  /** It changes nothing at any other index. */
  lemma PublishKeeps(s: Shared, i: nat, n: int, l: Local)
    requires Inv(s)
    ensures Inv(PublishedState(s, i, n, l)) && SameExcept(s, PublishedState(s, i, n, l), i)
    ensures RecordsKept(s, PublishedState(s, i, n, l), i)
  {
    var w := SetWriteset(s, i, n, l.writeset);
    ReplaceEffect(s, i, PublishedItems(i, n, l.writeset), w);
    assert w.readsets == s.readsets && w.iteratesets == s.iteratesets;
    RecordsKeep(s, w, i, l);
  }

  lemma RecordsKeep(s: Shared, w: Shared, i: nat, l: Local)
    requires Inv(w) && SameExcept(s, w, i) && w.readsets == s.readsets && w.iteratesets == s.iteratesets
    ensures Inv(SetRecords(w, i, l)) && SameExcept(s, SetRecords(w, i, l), i) && RecordsKept(s, SetRecords(w, i, l), i)
  {
    RecordsIrrelevant(w, SetRecords(w, i, l));
    SameExceptVia(s, w, SetRecords(w, i, l), i);
    RecordsSet(w, i, l);
  }

  lemma RecordsSet(w: Shared, i: nat, l: Local)
    ensures RecordsKept(w, SetRecords(w, i, l), i) && HoldsRecords(SetRecords(w, i, l), i, l)
  {
  }

  lemma WritesHeld(w: Shared, t: Shared, i: nat, n: int, ws: WriteSet)
    requires t.versions == w.versions && HoldsExactly(w, i, PublishedItems(i, n, ws))
    ensures HoldsWrites(t, i, ws)
  {
    forall k: Key ensures ItemAt(t, k) == ItemAt(w, k) && (Holds(t, i, k) <==> k in ws) {
      assert Holds(w, i, k) <==> k in ws;
    }
  }

  ghost predicate RecordsKept(s: Shared, t: Shared, i: nat) {
    && (forall j :: j != i && j in s.readsets ==> j in t.readsets && t.readsets[j] == s.readsets[j])
    && (forall j :: j != i && j in s.iteratesets ==> j in t.iteratesets && t.iteratesets[j] == s.iteratesets[j])
  }

  lemma PublishOk(dom: Domain, b: Block, s: System, i: nat, n: int)
    requires SystemOk(dom, b, s) && i < |b.txs| && i in s.running && b.txs[i](s.running[i].hist).Commit?
    ensures var l := s.running[i];
            SystemOk(dom, b, System(PublishedState(s.shared, i, n, l), s.running - {i}, s.clean[i := l]))
  {
    hide PublishedState, Follows, Inv, SameExcept, RecordsKept;
    var l := s.running[i];
    var t := PublishedState(s.shared, i, n, l);
    PublishHolds(s.shared, i, n, l);
    PublishKeeps(s.shared, i, n, l);
    assert RunningOk(dom, b.txs[i], l);
    forall k: Key | Holds(t, i, k) ensures ItemWithin(dom, k, ItemAt(t, k)[i]) { assert k in l.writeset; }
    SharedFrame(dom, b, s.shared, t, i);
    CleanFrame(dom, b, s, t, i);
    assert CleanOk(dom, b, t, i, l);
  }

  /** The bookkeeping invariant does not depend on the stored readsets and iteratesets. */
  lemma RecordsIrrelevant(w: Shared, t: Shared)
    requires Inv(w) && t.versions == w.versions && t.writesetKeys == w.writesetKeys
    ensures Inv(t)
  {
    forall k: Key ensures ItemAt(t, k) == ItemAt(w, k) {}
    forall i: nat, k: Key ensures Holds(t, i, k) <==> Recorded(t, i, k) {
      assert Holds(w, i, k) <==> Recorded(w, i, k);
    }
    forall k: Key ensures WellIndexed(ItemAt(t, k)) { assert WellIndexed(ItemAt(w, k)); }
  }

  lemma SameExceptVia(s: Shared, w: Shared, t: Shared, i: nat)
    requires SameExcept(s, w, i) && t.versions == w.versions
    ensures SameExcept(s, t, i)
  {
    forall k: Key ensures ItemAt(t, k) == ItemAt(w, k) {}
    forall j: nat, k: Key | j != i ensures Holds(t, j, k) <==> Holds(s, j, k) {
      assert Holds(w, j, k) <==> Holds(s, j, k);
    }
    forall j: nat, k: Key | j != i && Holds(s, j, k) ensures ItemAt(t, k)[j] == ItemAt(s, k)[j] {
      assert Holds(w, j, k);
    }
  }

  lemma EstimatesOk(dom: Domain, b: Block, s: System, i: nat, n: int)
    requires SystemOk(dom, b, s) && i < |b.txs| && i in s.running
    ensures SystemOk(dom, b,
                     s.(shared := SetEstimatedWriteset(s.shared, i, n, s.running[i].writeset), clean := s.clean - {i}))
  {
    var t := SetEstimatedWriteset(s.shared, i, n, s.running[i].writeset);
    ReplaceEffect(s.shared, i, EstimateItems(i, n, s.running[i].writeset.Keys), t);
    SharedFrame(dom, b, s.shared, t, i);
    CleanFrame(dom, b, s, t, i);
  }

  lemma InvalidateOk(dom: Domain, b: Block, s: System, i: nat, n: int)
    requires SystemOk(dom, b, s) && i < |b.txs|
    ensures SystemOk(dom, b, s.(shared := InvalidateWriteset(s.shared, i, n), clean := s.clean - {i}))
  {
    var t := InvalidateWriteset(s.shared, i, n);
    InvalidateEffect(s.shared, i, n);
    forall k: Key | Holds(t, i, k) ensures ItemWithin(dom, k, ItemAt(t, k)[i]) { assert Holds(s.shared, i, k); }
    SharedFrame(dom, b, s.shared, t, i);
    CleanFrame(dom, b, s, t, i);
  }

  lemma ClearOk(dom: Domain, b: Block, s: System, i: nat)
    requires SystemOk(dom, b, s) && i < |b.txs|
    ensures var t := s.shared.(readsets := s.shared.readsets - {i}, iteratesets := s.shared.iteratesets - {i});
            SystemOk(dom, b, s.(shared := t, clean := s.clean - {i}))
  {
    var t := s.shared.(readsets := s.shared.readsets - {i}, iteratesets := s.shared.iteratesets - {i});
    RecordsIrrelevant(s.shared, t);
    assert SameExcept(s.shared, s.shared, i);
    SameExceptVia(s.shared, s.shared, t, i);
    forall k: Key ensures ItemAt(t, k) == ItemAt(s.shared, k) {}
    forall k: Key | Holds(t, i, k) ensures ItemWithin(dom, k, ItemAt(t, k)[i]) { assert Holds(s.shared, i, k); }
    SharedFrame(dom, b, s.shared, t, i);
    CleanFrame(dom, b, s, t, i);
  }

  lemma SharedSourceOk(dom: Domain, s: Shared, parent: KVMap, i: nat)
    requires ValuesOk(dom, s) && ParentWithin(dom, parent)
    ensures SourceOk(dom, SharedSource(s, parent, i))
  {
    forall k: Key | SharedSource(s, parent, i)(k).Current? ensures dom(k, SharedSource(s, parent, i)(k).value) {
      LatestBeforeIsGreatest(ItemAt(s, k), i);
      if LatestFor(s, i, k).Some? {
        var j :| 0 <= j < i && j in ItemAt(s, k) && LatestFor(s, i, k).value == ItemAt(s, k)[j];
        assert Holds(s, j, k);
      }
    }
  }

  lemma ParentIsOk(dom: Domain, parent: KVMap, items: set<Key>)
    requires ParentWithin(dom, parent)
    ensures ParentOk(dom, parent, items)
  {
    assert forall k: Key :: k in parent ==> Lookup(parent, k) == Some(parent[k]);
  }

  lemma StepWrites(op: Op, l: Local, parent: KVMap, items: set<Key>, src: Key -> Source)
    requires LocalStep(op, l, parent, items, src).Stepped?
    ensures LocalStep(op, l, parent, items, src).local.writeset
         == if op.Put? then l.writeset[op.key := op.value] else l.writeset
  {
  }

  lemma CallOk(dom: Domain, tx: Tx, l: Local, parent: KVMap, items: set<Key>, src: Key -> Source)
    requires RunningOk(dom, tx, l) && ParentWithin(dom, parent) && SourceOk(dom, src) && WritesWithin(dom, tx(l.hist))
    requires LocalStep(tx(l.hist), l, parent, items, src).Stepped?
    ensures RunningOk(dom, tx, LocalStep(tx(l.hist), l, parent, items, src).local)
  {
    hide Follows, LocalStep, ParentWithin, SourceOk;
    ParentIsOk(dom, parent, items);
    StepFollows(dom, tx, l, parent, items, src);
    StepWrites(tx(l.hist), l, parent, items, src);
  }

  lemma ExecOk(dom: Domain, b: Block, s: System, i: nat, items: set<Key>, src: Key -> Source)
    requires SystemOk(dom, b, s) && ParentWithin(dom, b.parent)
    requires i < |b.txs| && i in s.running && ExecStep(b, s, i, items, src).Some?
    requires SourceOk(dom, src) && WritesWithin(dom, b.txs[i](s.running[i].hist))
    ensures SystemOk(dom, b, ExecStep(b, s, i, items, src).value)
  {
    hide SharedOk, CleanOk, RunningOk, ParentWithin, SourceOk, WritesWithin, LocalStep;
    var l := s.running[i];
    if LocalStep(b.txs[i](l.hist), l, b.parent, items, src).Stepped? { CallOk(dom, b.txs[i], l, b.parent, items, src); }
  }

  lemma ActionOk(dom: Domain, b: Block, s: System, a: Action)
    requires Apart(dom) && ParentWithin(dom, b.parent)
    requires SystemOk(dom, b, s) && Do(b, s, a).Some? && TameCall(dom, b, Some(s), a)
    ensures SystemOk(dom, b, Do(b, s, a).value)
  {
    match a
    case Begin(i) => StartFollows(dom, b.txs[i]);
    case Exec(i, items, src) => ExecOk(dom, b, s, i, items, src);
    case Publish(i, n) => PublishOk(dom, b, s, i, n);
    case PublishEstimates(i, n) => EstimatesOk(dom, b, s, i, n);
    case InvalidateTx(i, n) => InvalidateOk(dom, b, s, i, n);
    case ClearRecords(i) => ClearOk(dom, b, s, i);
  }

  lemma {:induction false} EveryRunOk(dom: Domain, b: Block, acts: seq<Action>)
    requires Apart(dom) && ParentWithin(dom, b.parent) && Tame(dom, b, acts) && Run(b, acts).Some?
    ensures SystemOk(dom, b, Run(b, acts).value)
  {
    if acts == [] {
      assert forall k: Key :: ItemAt(Fresh, k) == map[];
    } else {
      var before, a := acts[..|acts| - 1], acts[|acts| - 1];
      EveryRunOk(dom, b, before);
      ActionOk(dom, b, Run(b, before).value, a);
    }
  }

  // ----- From validation to agreement -----

  lemma {:induction false} UpToIsPrefix(keys: seq<Key>, stop: Option<Key>)
    ensures UpTo(keys, stop) <= keys && (stop.None? ==> UpTo(keys, stop) == keys)
  {
    if keys != [] && stop != Some(keys[0]) {
      UpToIsPrefix(keys[1..], stop);
      assert keys == [keys[0]] + keys[1..];
    }
  }

  /** An accepted tracker has visited a prefix of the fresh scan, and all of it if it saw the end. */
  lemma AcceptedIterAgrees(it: Iter, view: KVMap)
    requires TrackerOk(it)
    requires Elements(UpTo(FreshScan(view, it.tracker), it.tracker.earlyStop)) == it.tracker.iteratedKeys
    ensures IterAgrees(it, view)
  {
    var scan, cut := FreshScan(view, it.tracker), UpTo(FreshScan(view, it.tracker), it.tracker.earlyStop);
    UpToIsPrefix(scan, it.tracker.earlyStop);
    assert Ordered(it.tracker.ascending, cut) by {
      forall i, j | 0 <= i < j < |cut| ensures Before(it.tracker.ascending, cut[i], cut[j]) {
        assert cut[i] == scan[i] && cut[j] == scan[j];
      }
    }
    forall x ensures x in cut <==> x in it.visited {
      assert x in Elements(cut) <==> x in Elements(it.visited);
    }
    OrderedUnique(it.tracker.ascending, cut, it.visited);
  }

  lemma ViewWithin(dom: Domain, s: Shared, parent: KVMap, i: nat, k: Key)
    requires ValuesOk(dom, s) && ParentWithin(dom, parent) && NoEstimatesBefore(s, i)
    ensures dom(k, Lookup(View(s, parent, i), k))
  {
    ViewReads(s, parent, i, k);
    SharedSourceOk(dom, s, parent, i);
    assert SharedSource(s, parent, i)(k) == ReadSource(s, parent, i, k);
  }

  lemma ValidReadAgrees(dom: Domain, s: Shared, parent: KVMap, i: nat, k: Key, v: Option<Bytes>)
    requires Apart(dom) && ValuesOk(dom, s) && ParentWithin(dom, parent) && NoEstimatesBefore(s, i)
    requires ReadValid(s, parent, i, k, [v]) && dom(k, v)
    ensures v == Lookup(View(s, parent, i), k)
  {
    ReadValidExact(s, parent, i, k, v);
    ViewWithin(dom, s, parent, i, k);
    hide ReadValid, ValuesOk, ParentWithin;
    assert BytesEqual(v, Lookup(View(s, parent, i), k)) || (v == Some([]) && LatestFor(s, i, k).None? && k !in parent);
  }

  /** A published record that validates agrees with the view of its index. */
  lemma ValidatedAgrees(dom: Domain, b: Block, s: Shared, i: nat, l: Local)
    requires SharedOk(dom, b, s) && ParentWithin(dom, b.parent) && NoEstimatesBefore(s, i)
    requires CleanOk(dom, b, s, i, l) && ValidState(s, b.parent, i)
    ensures Agrees(l, View(s, b.parent, i))
  {
    var view := View(s, b.parent, i);
    hide View, ReadValid, IterAgrees, ValuesOk, ParentWithin, NoEstimatesBefore, Inv;
    forall k | k in l.readset ensures l.readset[k] == [Lookup(view, k)] {
      assert ReadsetAt(s, i) == l.readset && ReadValid(s, b.parent, i, k, l.readset[k]);
      OneValue(s, b.parent, i, k, l.readset[k]);
      ValidReadAgrees(dom, s, b.parent, i, k, l.readset[k][0]);
    }
    forall h | 0 <= h < |l.iters| ensures IterAgrees(l.iters[h], view) {
      assert IteratesetAt(s, i) == Trackers(l.iters);
      assert ValidateIterator(s, b.parent, i, Trackers(l.iters)[h]);
      assert IterOk(dom, l.iters[h], l.writeset, l.readset);
      PhantomCheckExact(s, b.parent, i, l.iters[h].tracker);
      AcceptedIterAgrees(l.iters[h], view);
    }
  }

  lemma OneValue(s: Shared, parent: KVMap, i: nat, k: Key, values: seq<Option<Bytes>>)
    requires ReadValid(s, parent, i, k, values)
    ensures |values| == 1 && values == [values[0]]
  {
  }

  /** One more index: its view is the previous view under the writes published there. */
  lemma NextView(s: Shared, parent: KVMap, i: nat, l: Local)
    requires Holding(s, i, l)
    ensures View(s, parent, i + 1) == Overlay(View(s, parent, i), l.writeset)
  {
    forall k: Key
      ensures Lookup(View(s, parent, i + 1), k)
           == if k in l.writeset then l.writeset[k] else Lookup(View(s, parent, i), k)
    {
      assert Holds(s, i, k) <==> k in l.writeset;
    }
    OverlayUnique(View(s, parent, i), l.writeset, View(s, parent, i + 1));
  }

  // ----- The theorem -----

  /** All transactions are cleanly published and all of them validate with no conflicts. */
  ghost predicate Accepted(b: Block, s: System) {
    forall i :: 0 <= i < |b.txs| ==>
      i in s.clean && ValidState(s.shared, b.parent, i) && Conflicts(s.shared, b.parent, i) == {}
  }

  lemma CleanHasNoEstimates(dom: Domain, b: Block, s: System, n: nat)
    requires SystemOk(dom, b, s) && n <= |b.txs| && forall i :: 0 <= i < n ==> i in s.clean
    ensures NoEstimatesBefore(s.shared, n)
  {
    forall j: nat, k: Key | j < n && Holds(s.shared, j, k) ensures !ItemAt(s.shared, k)[j].IsEstimate() {
      assert CleanOk(dom, b, s.shared, j, s.clean[j]);
    }
  }

  /** Running an accepted transaction alone on its view gives the next view. */
  lemma AcceptedStep(dom: Domain, b: Block, s: System, i: nat)
    requires SystemOk(dom, b, s) && ParentWithin(dom, b.parent) && Accepted(b, s) && i < |b.txs|
    ensures RunAlone(b.txs[i], View(s.shared, b.parent, i)) == Some(View(s.shared, b.parent, i + 1))
  {
    var l := s.clean[i];
    assert CleanOk(dom, b, s.shared, i, l);
    CleanHasNoEstimates(dom, b, s, i);
    ValidatedAgrees(dom, b, s.shared, i, l);
    FinishedIsSerial(dom, b.txs[i], l, View(s.shared, b.parent, i));
    NextView(s.shared, b.parent, i, l);
  }

  lemma FirstView(s: Shared, parent: KVMap)
    ensures View(s, parent, 0) == parent
  {
    assert Below(s, 0) == map[];
    OverlayUnique(parent, map[], parent);
  }

  lemma {:induction false} AcceptedViews(dom: Domain, b: Block, s: System, n: nat)
    requires SystemOk(dom, b, s) && ParentWithin(dom, b.parent) && Accepted(b, s) && n <= |b.txs|
    ensures RunAll(b.txs, b.parent, n) == Some(View(s.shared, b.parent, n))
  {
    hide SystemOk, ParentOk, Accepted, View, RunAlone;
    if n == 0 {
      FirstView(s.shared, b.parent);
    } else {
      AcceptedViews(dom, b, s, n - 1);
      AcceptedStep(dom, b, s, n - 1);
    }
  }

  /** Serializability: whatever was executed, estimated, invalidated and cleared before, in any interleaving and with
      whatever answers, an accepted system flushes to the result of the serial execution. */
  lemma Serializable(dom: Domain, b: Block, acts: seq<Action>)
    requires Apart(dom) && ParentWithin(dom, b.parent)
    ensures Tame(dom, b, acts) && Run(b, acts).Some? && Accepted(b, Run(b, acts).value) ==>
              RunAll(b.txs, b.parent, |b.txs|) == Some(Flushed(Run(b, acts).value.shared, b.parent))
  {
    if Tame(dom, b, acts) && Run(b, acts).Some? && Accepted(b, Run(b, acts).value) {
      var s := Run(b, acts).value;
      EveryRunOk(dom, b, acts);
      CleanHasNoEstimates(dom, b, s, |b.txs|);
      FlushIsFinalView(s.shared, b.parent, |b.txs|);
      AcceptedViews(dom, b, s, |b.txs|);
    }
  }

  // ----- Answers from the store -----

  /** For this key the call meets what the store holds after these actions. */
  ghost predicate AnsweredAt(b: Block, acts: seq<Action>, a: Action, k: Key)
    requires a.Exec?
  {
    && Run(b, acts).Some?
    && a.src(k) == SharedSource(Run(b, acts).value.shared, b.parent, a.index)(k)
    && (k in a.items <==> k in Collected(Run(b, acts).value.shared, a.index))
  }

  ghost predicate AnsweredEver(b: Block, acts: seq<Action>, a: Action, k: Key)
    requires a.Exec?
  {
    exists j :: 0 <= j <= |acts| && AnsweredAt(b, acts[..j], a, k)
  }

  /** For each key the call meets what the store held at some time. */
  ghost predicate Witnessed(b: Block, acts: seq<Action>, a: Action) {
    a.Exec? ==> forall k: Key :: AnsweredEver(b, acts, a, k)
  }

  ghost predicate FromStore(b: Block, acts: seq<Action>) {
    var n := |acts| - 1;
    acts == [] || (FromStore(b, acts[..n]) && Witnessed(b, acts[..n], acts[n]))
  }

  /** The block's values are among those the keys may have. */
  ghost predicate Within(dom: Domain, b: Block) {
    && ParentWithin(dom, b.parent)
    && forall i, hist :: 0 <= i < |b.txs| ==> WritesWithin(dom, b.txs[i](hist))
  }

  lemma AnswerWithin(dom: Domain, b: Block, acts: seq<Action>, a: Action, k: Key)
    requires Apart(dom) && Within(dom, b) && Tame(dom, b, acts) && a.Exec? && AnsweredAt(b, acts, a, k)
    ensures a.src(k).Current? ==> dom(k, a.src(k).value)
  {
    var s := Run(b, acts).value;
    EveryRunOk(dom, b, acts);
    SharedSourceOk(dom, s.shared, b.parent, a.index);
    assert SourceOk(dom, SharedSource(s.shared, b.parent, a.index));
  }

  lemma {:induction false} StoreRunsTame(dom: Domain, b: Block, acts: seq<Action>)
    requires Apart(dom) && Within(dom, b) && FromStore(b, acts)
    ensures Tame(dom, b, acts)
  {
    if acts != [] {
      var before, a := acts[..|acts| - 1], acts[|acts| - 1];
      StoreRunsTame(dom, b, before);
      if a.Exec? {
        forall k: Key ensures a.src(k).Current? ==> dom(k, a.src(k).value) {
          assert AnsweredEver(b, before, a, k);
          var j :| 0 <= j <= |before| && AnsweredAt(b, before[..j], a, k);
          TameBefore(dom, b, before, j);
          AnswerWithin(dom, b, before[..j], a, k);
        }
      }
    }
  }

  /** Serializability for answers that come from the store, each from any state it has been in. */
  lemma StoreSerializable(dom: Domain, b: Block, acts: seq<Action>)
    requires Apart(dom) && Within(dom, b)
    ensures FromStore(b, acts) && Run(b, acts).Some? && Accepted(b, Run(b, acts).value) ==>
              RunAll(b.txs, b.parent, |b.txs|) == Some(Flushed(Run(b, acts).value.shared, b.parent))
  {
    if FromStore(b, acts) { StoreRunsTame(dom, b, acts); }
    Serializable(dom, b, acts);
  }
}

/** Where serializability stops: `bytes.Equal` takes nil for the empty slice, so a transaction that read "absent" still
    validates when an empty value is there now, be it written by an earlier transaction or already in the parent. */
module EmptyValues {
  import opened Bytes
  import opened MultiVersion
  import opened Execution
  import opened Simulation
  import opened Serializability
  import opened Schedules
  import opened Completeness

  const A: Key := [1]
  const B: Key := [2]
  const C: Key := [3]

  // ----- Transactions of one or two calls -----

  /** The place after a read that was answered by the shared store, and after a write. */
  function Heard(l: Local, k: Key, v: Option<Bytes>): Local {
    Local(l.hist + [Got(v)], l.readset[k := [v]], l.writeset, l.iters)
  }

  function Wrote(l: Local, k: Key, v: Option<Bytes>): Local {
    Local(l.hist + [Done], l.readset, l.writeset[k := v], l.iters)
  }

  lemma GetCalls(b: Block, s: Shared, i: nat, l: Local, k: Key, v: Option<Bytes>)
    requires i < |b.txs| && b.txs[i](l.hist) == Get(k) && k !in l.writeset && k !in l.readset
    requires SharedSource(s, b.parent, i)(k) == Current(v)
    ensures Calls(b, s, i, l, Heard(l, k, v))
  {
    var none: seq<Option<Bytes>> := [];
    assert none + [v] == [v];
    assert UpdateReadSet(l.readset, k, v) == l.readset[k := [v]];
  }

  lemma PutCalls(b: Block, s: Shared, i: nat, l: Local, k: Key, v: Option<Bytes>)
    requires i < |b.txs| && b.txs[i](l.hist) == Put(k, v) && l.iters == []
    ensures Calls(b, s, i, l, Wrote(l, k, v))
  {
  }

  lemma GetAlone(tx: Tx, m: KVMap, k: Key)
    requires tx([]) == Get(k) && tx([Got(Lookup(m, k))]) == Commit
    ensures RunAlone(tx, m) == Some(m)
  {
    var hist: seq<Resp> := [];
    assert hist + [Got(Lookup(m, k))] == [Got(Lookup(m, k))];
    assert SerialAfter(tx, m, 0) == Some(Serial(m, [], []));
    assert SerialAfter(tx, m, 1) == Some(Serial(m, [], [Got(Lookup(m, k))]));
    RunAloneIs(tx, m, 1);
  }

  lemma PutAlone(tx: Tx, m: KVMap, k: Key, v: Option<Bytes>)
    requires tx([]) == Put(k, v) && tx([Done]) == Commit
    ensures RunAlone(tx, m) == Some(Assign(m, k, v))
  {
    var hist: seq<Resp> := [];
    assert hist + [Done] == [Done];
    assert SerialAfter(tx, m, 0) == Some(Serial(m, [], []));
    assert SerialAfter(tx, m, 1) == Some(Serial(Assign(m, k, v), [], [Done]));
    RunAloneIs(tx, m, 1);
  }

  // ----- What the shared state says after some publications -----

  lemma ReadsVersion(t: Shared, ls: map<nat, Local>, parent: KVMap, i: nat, k: Key, j: nat)
    requires HoldsAll(t, ls) && j < i && j in ls && k in ls[j].writeset
    requires forall m :: j < m < i && m in ls ==> k !in ls[m].writeset
    ensures SharedSource(t, parent, i)(k) == Current(ls[j].writeset[k])
  {
    PublishedRead(t, ls, i, k, j);
  }

  lemma ReadsParent(t: Shared, ls: map<nat, Local>, parent: KVMap, i: nat, k: Key)
    requires HoldsAll(t, ls) && forall m :: 0 <= m < i && m in ls ==> k !in ls[m].writeset
    ensures SharedSource(t, parent, i)(k) == Current(Lookup(parent, k))
  {
    UnpublishedRead(t, ls, i, k);
  }

  /** A transaction without iterators validates when its reads do. */
  lemma ReadsDecide(t: Shared, ls: map<nat, Local>, parent: KVMap, i: nat)
    requires HoldsAll(t, ls) && i in ls && ls[i].iters == []
    requires forall k :: k in ls[i].readset ==>
              ReadValid(t, parent, i, k, ls[i].readset[k]) && !ReadConflicts(t, parent, i, k, ls[i].readset[k])
    ensures ValidState(t, parent, i) && Conflicts(t, parent, i) == {}
  {
    assert IteratesetAt(t, i) == Trackers([]) == [];
    assert ReadsetAt(t, i) == ls[i].readset;
  }

  lemma OneReadDecides(t: Shared, ls: map<nat, Local>, parent: KVMap, i: nat, k: Key, v: Option<Bytes>)
    requires HoldsAll(t, ls) && i in ls && ls[i].iters == [] && ls[i].readset == map[k := [v]]
    requires ReadValid(t, parent, i, k, [v]) && !ReadConflicts(t, parent, i, k, [v])
    ensures ValidState(t, parent, i) && Conflicts(t, parent, i) == {}
  {
    ReadsDecide(t, ls, parent, i);
  }

  /** A recorded nil passes against a parent's empty value, and against an earlier transaction's. */
  lemma NilPassesForEmpty(t: Shared, parent: KVMap, i: nat, k: Key)
    requires match LatestFor(t, i, k)
             case None => Lookup(parent, k) == Some([])
             case Some(item) => item.value == Some([]) && !item.IsEstimate()
    ensures ReadValid(t, parent, i, k, [None]) && !ReadConflicts(t, parent, i, k, [None])
  {
  }

  /** What the last transaction wrote is flushed. */
  lemma LastIsFlushed(t: Shared, ls: map<nat, Local>, parent: KVMap, n: nat, k: Key)
    requires HoldsAll(t, ls) && n in ls && k in ls[n].writeset && ls[n].writeset[k].Some? && forall i :: i in ls ==>
              i <= n
    ensures k in Flushed(t, parent)
  {
    forall j: Key, i: nat | i in ItemAt(t, j) ensures i < n + 1 { assert Holds(t, i, j); }
    FlushIsFinalView(t, parent, n + 1);
    PublishedRead(t, ls, n + 1, k, n);
  }

  // ----- A key that may be absent and empty -----

  /** Stores an empty value under k. */
  function Writer(k: Key): Tx {
    h => if h == [] then Put(k, Some([])) else Commit
  }

  function WriterEnd(k: Key): Local {
    Wrote(Start, k, Some([]))
  }

  lemma WriterExecutes(b: Block, t: Shared, k: Key)
    requires b.txs != [] && b.txs[0] == Writer(k)
    ensures Executes(b, t, 0, [Start, WriterEnd(k)])
  {
    assert WriterEnd(k).hist == [Done];
    PutCalls(b, t, 0, Start, k, Some([]));
  }

  function Ends(k: Key, l: Local): map<nat, Local> {
    map[1 := l][0 := WriterEnd(k)]
  }

  /** The second transaction runs first and finds k absent; then the writer runs. */
  lemma AbsentThenEmpty(b: Block, k: Key, trace: seq<Local>, l: Local) returns (acts: seq<Action>, t: Shared)
    requires |b.txs| == 2 && b.txs[0] == Writer(k) && Executes(b, Fresh, 1, trace) && l == trace[|trace| - 1]
    ensures Reached(b, acts, t, Ends(k, l))
  {
    hide Executes, Leads, HoldsAll, PublishedState;
    StartReached(b);
    acts, t := RunOneMore(b, [], Fresh, map[], 1, trace, l);
    var one: map<nat, Local> := map[1 := l];
    assert map[][1 := l] == one;
    WriterExecutes(b, t, k);
    acts, t := RunOneMore(b, acts, t, one, 0, [Start, WriterEnd(k)], WriterEnd(k));
  }

  /** Both validate. */
  lemma AbsentPassesForEmpty(b: Block, k: Key, l: Local, t: Shared)
    requires |b.txs| == 2 && l.readset == map[k := [None]] && l.iters == [] && HoldsAll(t, Ends(k, l))
    ensures Accepted(b, System(t, map[], Ends(k, l)))
  {
    hide HoldsAll, ValidState, Conflicts, ReadValid, ReadConflicts;
    var ls := Ends(k, l);
    ReadsDecide(t, ls, b.parent, 0);
    PublishedRead(t, ls, 1, k, 0);
    NilPassesForEmpty(t, b.parent, 1, k);
    OneReadDecides(t, ls, b.parent, 1, k, None);
  }

  /** Turns an absent value of k into an empty one and any other into an absent one. */
  function Flipper(k: Key): Tx {
    h => if h == [] then Get(k) else if |h| > 1 then Commit else Put(k, if h == [Got(None)] then Some([]) else None)
  }

  function Flip(k: Key, parent: KVMap): Block {
    Block([Writer(k), Flipper(k)], parent)
  }

  function FlipperEnd(k: Key): Local {
    Wrote(Heard(Start, k, None), k, Some([]))
  }

  lemma FlipperExecutes(k: Key, parent: KVMap)
    requires k !in parent
    ensures Executes(Flip(k, parent), Fresh, 1, [Start, Heard(Start, k, None), FlipperEnd(k)])
  {
    var b, mid := Flip(k, parent), Heard(Start, k, None);
    assert mid.hist == [Got(None)] && FlipperEnd(k).hist == [Got(None), Done];
    NothingPublished();
    ReadsParent(Fresh, map[], parent, 1, k);
    GetCalls(b, Fresh, 1, Start, k, None);
    PutCalls(b, Fresh, 1, mid, k, Some([]));
    assert Trace(b, Fresh, 1, [Start]);
    assert [Start, mid][..1] == [Start] && Trace(b, Fresh, 1, [Start, mid]);
    assert [Start, mid, FlipperEnd(k)][..2] == [Start, mid];
  }

  lemma GetPutAlone(tx: Tx, m: KVMap, k: Key, v: Option<Bytes>)
    requires tx([]) == Get(k) && tx([Got(Lookup(m, k))]) == Put(k, v) && tx([Got(Lookup(m, k)), Done]) == Commit
    ensures RunAlone(tx, m) == Some(Assign(m, k, v))
  {
    var none: seq<Resp>, one := [], [Got(Lookup(m, k))];
    assert none + one == one && one + [Done] == [Got(Lookup(m, k)), Done];
    assert SerialAfter(tx, m, 0) == Some(Serial(m, [], none));
    assert SerialAfter(tx, m, 1) == Some(Serial(m, [], one));
    assert SerialAfter(tx, m, 2) == Some(Serial(Assign(m, k, v), [], one + [Done]));
    RunAloneIs(tx, m, 2);
  }

  /** One after the other, they leave k absent. */
  lemma FlipSerial(k: Key, parent: KVMap)
    requires k !in parent
    ensures RunAll(Flip(k, parent).txs, parent, 2) == Some(parent)
  {
    var txs, m: KVMap := Flip(k, parent).txs, parent[k := []];
    PutAlone(Writer(k), parent, k, Some([]));
    GetPutAlone(Flipper(k), m, k, None);
    assert Assign(m, k, None) == parent;
    hide RunAlone;
    assert RunAll(txs, parent, 0) == Some(parent);
    assert RunAll(txs, parent, 1) == Some(m);
  }

  lemma FlipNotSerializable(k: Key, parent: KVMap) returns (acts: seq<Action>)
    requires k !in parent
    ensures AtOnce(Flip(k, parent), acts) && !SerializableRun(Flip(k, parent), acts)
  {
    var b, l := Flip(k, parent), FlipperEnd(k);
    FlipperExecutes(k, parent);
    var t;
    acts, t := AbsentThenEmpty(b, k, [Start, Heard(Start, k, None), l], l);
    AbsentPassesForEmpty(b, k, l, t);
    LastIsFlushed(t, Ends(k, l), parent, 1, k);
    FlipSerial(k, parent);
  }

  // ----- An empty value in the parent -----

  /** Stores something under B only if A is absent. */
  function Reader(h: seq<Resp>): Op {
    if h == [] then Get(A) else if h == [Got(None)] then Put(B, Some([7])) else Commit
  }

  const ReaderMid := Heard(Start, A, None)
  const ReaderEnd := Wrote(ReaderMid, B, Some([7]))

  lemma ReaderExecutes(b: Block, t: Shared, i: nat)
    requires i < |b.txs| && b.txs[i] == Reader && SharedSource(t, b.parent, i)(A) == Current(None)
    ensures Executes(b, t, i, [Start, ReaderMid, ReaderEnd])
  {
    assert ReaderMid.hist == [Got(None)] && ReaderEnd.hist == [Got(None), Done];
    GetCalls(b, t, i, Start, A, None);
    PutCalls(b, t, i, ReaderMid, B, Some([7]));
  }

  function Marker(h: seq<Resp>): Op {
    if h == [] then Put(C, Some([7])) else Commit
  }

  /** Deletes A only if C is absent. */
  function Deleter(h: seq<Resp>): Op {
    if h == [] then Get(C) else if h == [Got(None)] then Put(A, None) else Commit
  }

  const EmptyParent := Block([Marker, Deleter, Reader], map[A := []])

  const MarkerEnd := Wrote(Start, C, Some([7]))
  const DeleterMid := Heard(Start, C, None)
  const DeleterEnd := Wrote(DeleterMid, A, None)
  const DeleterAgain := Heard(Start, C, Some([7]))

  lemma DeleterExecutes(t: Shared)
    requires SharedSource(t, EmptyParent.parent, 1)(C) == Current(None)
    ensures Executes(EmptyParent, t, 1, [Start, DeleterMid, DeleterEnd])
  {
    assert DeleterMid.hist == [Got(None)] && DeleterEnd.hist == [Got(None), Done];
    GetCalls(EmptyParent, t, 1, Start, C, None);
    PutCalls(EmptyParent, t, 1, DeleterMid, A, None);
  }

  lemma DeleterExecutesAgain(t: Shared)
    requires SharedSource(t, EmptyParent.parent, 1)(C) == Current(Some([7]))
    ensures Executes(EmptyParent, t, 1, [Start, DeleterAgain])
  {
    assert DeleterAgain.hist == [Got(Some([7]))];
    GetCalls(EmptyParent, t, 1, Start, C, Some([7]));
  }

  lemma MarkerExecutes(t: Shared)
    ensures Executes(EmptyParent, t, 0, [Start, MarkerEnd])
  {
    assert MarkerEnd.hist == [Done];
    PutCalls(EmptyParent, t, 0, Start, C, Some([7]));
  }

  /** The deleter finds C absent and deletes A. */
  lemma DeleterDeletes(before: seq<Action>, s: Shared, ls: map<nat, Local>) returns (acts: seq<Action>, t: Shared)
    requires Reached(EmptyParent, before, s, ls) && ls == map[]
    ensures Reached(EmptyParent, acts, t, map[1 := DeleterEnd])
  {
    ReadsParent(s, ls, EmptyParent.parent, 1, C);
    DeleterExecutes(s);
    assert ls[1 := DeleterEnd] == map[1 := DeleterEnd];
    acts, t := RunOneMore(EmptyParent, before, s, ls, 1, [Start, DeleterMid, DeleterEnd], DeleterEnd);
  }

  /** The reader finds A deleted. */
  lemma ReaderReads(before: seq<Action>, s: Shared, ls: map<nat, Local>) returns (acts: seq<Action>, t: Shared)
    requires Reached(EmptyParent, before, s, ls) && ls == map[1 := DeleterEnd]
    ensures Reached(EmptyParent, acts, t, map[1 := DeleterEnd, 2 := ReaderEnd])
  {
    ReadsVersion(s, ls, EmptyParent.parent, 2, A, 1);
    ReaderExecutes(EmptyParent, s, 2);
    assert ls[2 := ReaderEnd] == map[1 := DeleterEnd, 2 := ReaderEnd];
    acts, t := RunOneMore(EmptyParent, before, s, ls, 2, [Start, ReaderMid, ReaderEnd], ReaderEnd);
  }

  /** C is written. */
  lemma MarkerMarks(before: seq<Action>, s: Shared, ls: map<nat, Local>) returns (acts: seq<Action>, t: Shared)
    requires Reached(EmptyParent, before, s, ls) && ls == map[1 := DeleterEnd, 2 := ReaderEnd]
    ensures Reached(EmptyParent, acts, t, map[0 := MarkerEnd, 1 := DeleterEnd, 2 := ReaderEnd])
  {
    hide Run, HoldsAll, Executes, PublishedState;
    MarkerExecutes(s);
    assert ls[0 := MarkerEnd] == map[0 := MarkerEnd, 1 := DeleterEnd, 2 := ReaderEnd];
    acts, t := RunOneMore(EmptyParent, before, s, ls, 0, [Start, MarkerEnd], MarkerEnd);
  }

  /** The deleter runs again and leaves A alone. */
  lemma DeleterRepents(before: seq<Action>, s: Shared, ls: map<nat, Local>) returns (acts: seq<Action>, t: Shared)
    requires Reached(EmptyParent, before, s, ls) && ls == map[0 := MarkerEnd, 1 := DeleterEnd, 2 := ReaderEnd]
    ensures Reached(EmptyParent, acts, t, ThreeEnds)
  {
    hide Run, HoldsAll, Executes, PublishedState;
    ReadsVersion(s, ls, EmptyParent.parent, 1, C, 0);
    DeleterExecutesAgain(s);
    assert ls[1 := DeleterAgain] == ThreeEnds;
    acts, t := RunOneMore(EmptyParent, before, s, ls, 1, [Start, DeleterAgain], DeleterAgain);
  }

  lemma EmptyParentRuns() returns (acts: seq<Action>, t: Shared)
    ensures Reached(EmptyParent, acts, t, ThreeEnds)
  {
    StartReached(EmptyParent);
    acts, t := DeleterDeletes([], Fresh, map[]);
    acts, t := ReaderReads(acts, t, map[1 := DeleterEnd]);
    acts, t := MarkerMarks(acts, t, map[1 := DeleterEnd, 2 := ReaderEnd]);
    acts, t := DeleterRepents(acts, t, map[0 := MarkerEnd, 1 := DeleterEnd, 2 := ReaderEnd]);
  }

  const ThreeEnds: map<nat, Local> := map[0 := MarkerEnd, 1 := DeleterAgain, 2 := ReaderEnd]

  lemma MarkerValid(t: Shared)
    requires HoldsAll(t, ThreeEnds)
    ensures ValidState(t, EmptyParent.parent, 0) && Conflicts(t, EmptyParent.parent, 0) == {}
  {
    assert ThreeEnds[0].readset == map[];
    ReadsDecide(t, ThreeEnds, EmptyParent.parent, 0);
  }

  lemma DeleterValid(t: Shared)
    requires HoldsAll(t, ThreeEnds)
    ensures ValidState(t, EmptyParent.parent, 1) && Conflicts(t, EmptyParent.parent, 1) == {}
  {
    hide HoldsAll, ValidState, Conflicts;
    PublishedRead(t, ThreeEnds, 1, C, 0);
    assert ThreeEnds[1].readset == map[C := [Some([7])]];
    OneReadDecides(t, ThreeEnds, EmptyParent.parent, 1, C, Some([7]));
  }

  lemma ReaderValid(t: Shared)
    requires HoldsAll(t, ThreeEnds)
    ensures ValidState(t, EmptyParent.parent, 2) && Conflicts(t, EmptyParent.parent, 2) == {}
  {
    UnpublishedRead(t, ThreeEnds, 2, A);
    NilPassesForEmpty(t, EmptyParent.parent, 2, A);
    assert ThreeEnds[2].readset == map[A := [None]];
    OneReadDecides(t, ThreeEnds, EmptyParent.parent, 2, A, None);
  }

  /** All validate. */
  lemma EmptyParentAccepted(t: Shared)
    requires HoldsAll(t, ThreeEnds)
    ensures Accepted(EmptyParent, System(t, map[], ThreeEnds))
  {
    hide HoldsAll, ValidState, Conflicts;
    MarkerValid(t);
    DeleterValid(t);
    ReaderValid(t);
    assert |EmptyParent.txs| == 3;
  }

  lemma EmptyParentFlushes(t: Shared)
    requires HoldsAll(t, ThreeEnds)
    ensures B in Flushed(t, EmptyParent.parent)
  {
    LastIsFlushed(t, ThreeEnds, EmptyParent.parent, 2, B);
  }

  lemma EmptyParentSerial()
    ensures RunAll(EmptyParent.txs, EmptyParent.parent, 3) == Some(map[A := [], C := [7]])
  {
    var m: KVMap := map[A := [], C := [7]];
    PutAlone(Marker, EmptyParent.parent, C, Some([7]));
    assert Assign(EmptyParent.parent, C, Some([7])) == m;
    GetAlone(Deleter, m, C);
    GetAlone(Reader, m, A);
    assert RunAll(EmptyParent.txs, EmptyParent.parent, 0) == Some(EmptyParent.parent);
    assert RunAll(EmptyParent.txs, EmptyParent.parent, 1) == Some(m);
    assert RunAll(EmptyParent.txs, EmptyParent.parent, 2) == Some(m);
  }

  // ----- The exact condition -----

  ghost predicate SerializableRun(b: Block, acts: seq<Action>) {
    Run(b, acts).Some? && Accepted(b, Run(b, acts).value) ==>
      RunAll(b.txs, b.parent, |b.txs|) == Some(Flushed(Run(b, acts).value.shared, b.parent))
  }

  /** Every accepted run of every block with these values is serializable. */
  ghost predicate SerializableWithin(dom: Domain) {
    forall b: Block, acts: seq<Action> :: Within(dom, b) && FromStore(b, acts) ==> SerializableRun(b, acts)
  }

  lemma ParentWithout(dom: Domain, parent: KVMap, k: Key)
    requires ParentWithin(dom, parent) && dom(k, None)
    ensures ParentWithin(dom, parent - {k})
  {
    forall x: Key ensures dom(x, Lookup(parent - {k}, x)) { assert dom(x, Lookup(parent, x)); }
  }

  lemma FlipWithin(dom: Domain, k: Key, parent: KVMap)
    requires ParentWithin(dom, parent) && dom(k, None) && dom(k, Some([]))
    ensures Within(dom, Flip(k, parent))
  {
    var txs := Flip(k, parent).txs;
    forall i, hist | 0 <= i < |txs| ensures WritesWithin(dom, txs[i](hist)) {
      if i == 0 { assert txs[i] == Writer(k); } else { assert txs[i] == Flipper(k); }
    }
  }

  /** The protocol is serializable exactly when no key may be both absent and empty. */
  lemma SerializableIffApart(dom: Domain, parent: KVMap)
    requires ParentWithin(dom, parent)
    ensures SerializableWithin(dom) <==> Apart(dom)
  {
    if Apart(dom) {
      forall b: Block, acts: seq<Action> | Within(dom, b) && FromStore(b, acts) ensures SerializableRun(b, acts) {
        StoreSerializable(dom, b, acts);
      }
    } else {
      var k: Key :| dom(k, None) && dom(k, Some([]));
      var b := Flip(k, parent - {k});
      var acts := FlipNotSerializable(k, parent - {k});
      AtOnceFromStore(b, acts);
      ParentWithout(dom, parent, k);
      FlipWithin(dom, k, parent - {k});
    }
  }

  function NonEmpty(): Domain {
    (k: Key, v: Option<Bytes>) => v != Some([])
  }

  ghost predicate NoEmptyWrites(b: Block) {
    forall i, hist :: 0 <= i < |b.txs| ==> WritesWithin(NonEmpty(), b.txs[i](hist))
  }

  /** Every accepted run is serializable, of every block whose transactions may write empty values or not, over every
      parent that may hold empty values or not. */
  ghost predicate AlwaysSerializable(emptyWrites: bool, emptyParent: bool) {
    forall b: Block, acts: seq<Action> ::
      (emptyWrites || NoEmptyWrites(b)) && (emptyParent || ParentWithin(NonEmpty(), b.parent)) && FromStore(b, acts) ==>
        SerializableRun(b, acts)
  }

  /** Ruled out for all keys, empty values have to be ruled out in the writes and in the parent. */
  lemma SerializableIffNoEmptyValues(emptyWrites: bool, emptyParent: bool)
    ensures AlwaysSerializable(emptyWrites, emptyParent) <==> !emptyWrites && !emptyParent
  {
    if emptyWrites {
      var acts := FlipNotSerializable(A, map[]);
      AtOnceFromStore(Flip(A, map[]), acts);
    } else if emptyParent {
      var acts := EmptyParentNotSerializable();
      AtOnceFromStore(EmptyParent, acts);
      assert NoEmptyWrites(EmptyParent);
    } else {
      SerializableIffApart(NonEmpty(), map[]);
    }
  }

  lemma EmptyParentNotSerializable() returns (acts: seq<Action>)
    ensures AtOnce(EmptyParent, acts) && !SerializableRun(EmptyParent, acts)
  {
    var t;
    acts, t := EmptyParentRuns();
    EmptyParentAccepted(t);
    EmptyParentFlushes(t);
    EmptyParentSerial();
  }

  // ----- The same for completeness -----

  /** Opens an iterator, without looking at it, only if k is there. */
  function Opener(k: Key): Tx {
    h => if h == [] then Get(k) else if |h| > 1 || h == [Got(None)] then Commit else Open(Range(None, None), true)
  }

  function Miss(k: Key, parent: KVMap): Block {
    Block([Writer(k), Opener(k)], parent)
  }

  lemma OpenerExecutes(k: Key, parent: KVMap)
    requires k !in parent
    ensures Executes(Miss(k, parent), Fresh, 1, [Start, Heard(Start, k, None)])
  {
    var b, mid := Miss(k, parent), Heard(Start, k, None);
    assert mid.hist == [Got(None)];
    NothingPublished();
    ReadsParent(Fresh, map[], parent, 1, k);
    GetCalls(b, Fresh, 1, Start, k, None);
    assert Trace(b, Fresh, 1, [Start]);
    assert [Start, mid][..1] == [Start];
  }

  /** Where k is empty, the opener's only run iterates over k and does not look. */
  lemma OpenerMisses(k: Key, m: KVMap)
    requires k in m
    ensures !LooksRun(Opener(k), m)
  {
    var tx, got := Opener(k), Got(Some(m[k]));
    var none: seq<Resp>, one, two := [], [got], [got, Done];
    var it := SerialIter(Range(None, None), true, m, Scan(true, Range(None, None), m.Keys), 0, true);
    var its: seq<SerialIter> := [];
    assert none + one == one && one + [Done] == two && its + [it] == [it];
    assert SerialAfter(tx, m, 0) == Some(Serial(m, its, none));
    assert SerialAfter(tx, m, 1) == Some(Serial(m, its, one));
    assert SerialAfter(tx, m, 2) == Some(Serial(m, [it], two));
    assert k in it.keys;
    if n: nat :| LooksAfter(tx, m, n) {
      if n > 2 { StuckAfterCommit(tx, m, 2, n); }
      assert n == 2;
      assert two[..0] == none && two[..1] == one && !LookedAt(tx, two, 0);
    }
  }

  lemma MissAccepted(k: Key, parent: KVMap)
    requires k !in parent
    ensures Acceptable(Miss(k, parent)) && !SerialLooks(Miss(k, parent))
  {
    var b, l := Miss(k, parent), Heard(Start, k, None);
    OpenerExecutes(k, parent);
    var acts, t := AbsentThenEmpty(b, k, [Start, l], l);
    AbsentPassesForEmpty(b, k, l, t);
    AtOnceFromStore(b, acts);
    assert AcceptedRun(b, acts);
    PutAlone(Writer(k), parent, k, Some([]));
    OpenerMisses(k, parent[k := []]);
    hide RunAlone, LooksRun;
    assert RunAll(b.txs, parent, 0) == Some(parent);
    assert RunAll(b.txs, parent, 1) == Some(parent[k := []]);
  }

  lemma MissWithin(dom: Domain, k: Key, parent: KVMap)
    requires ParentWithin(dom, parent) && dom(k, Some([]))
    ensures Within(dom, Miss(k, parent))
  {
    var txs := Miss(k, parent).txs;
    forall i, hist | 0 <= i < |txs| ensures WritesWithin(dom, txs[i](hist)) {
      if i == 0 { assert txs[i] == Writer(k); } else { assert txs[i] == Opener(k); }
    }
  }

  /** Which blocks can be accepted is decided by their serial execution exactly when no key may be both absent and
      empty. */
  lemma LooksDecidesIffApart(dom: Domain, parent: KVMap)
    requires ParentWithin(dom, parent)
    ensures (forall b :: Within(dom, b) ==> (Acceptable(b) <==> SerialLooks(b))) <==> Apart(dom)
  {
    hide Acceptable, SerialLooks;
    if Apart(dom) {
      forall b | Within(dom, b) ensures Acceptable(b) <==> SerialLooks(b) { AcceptableIffLooks(dom, b); }
    } else {
      var k: Key :| dom(k, None) && dom(k, Some([]));
      ParentWithout(dom, parent, k);
      MissWithin(dom, k, parent - {k});
      MissAccepted(k, parent - {k});
    }
  }
}

/** When a block can be accepted at all: when its transactions, run one after another, commit and look at every iterator
    they open over a range that is not empty. An iterator nobody looks at leaves an empty record without an early stop,
    which validation takes for a complete iteration that found nothing. */
module Completeness {
  import opened Bytes
  import opened VersionedItem
  import opened MergeIterator
  import opened MultiVersion
  import opened Execution
  import opened Simulation
  import opened Serializability
  import opened Schedules
  import opened StillExecution

  // ----- Looking at iterators -----

  predicate Looks(op: Op, h: nat) {
    op == IsValid(h) || op == GetKey(h) || op == GetValue(h) || op == Next(h)
  }

  /** Some call so far has looked at iterator h. */
  ghost predicate LookedAt(tx: Tx, hist: seq<Resp>, h: nat) {
    exists k :: 0 <= k < |hist| && Looks(tx(hist[..k]), h)
  }

  lemma LookedAtMore(tx: Tx, hist: seq<Resp>, r: Resp, h: nat)
    ensures LookedAt(tx, hist + [r], h) <==> LookedAt(tx, hist, h) || Looks(tx(hist), h)
  {
    var more := hist + [r];
    assert forall k :: 0 <= k < |hist| ==> more[..k] == hist[..k];
    assert more[..|hist|] == hist;
    if k :| 0 <= k < |hist| && Looks(tx(hist[..k]), h) { assert Looks(tx(more[..k]), h); }
    if Looks(tx(hist), h) { assert Looks(tx(more[..|hist|]), h); }
  }

  predicate Seen(it: Iter) {
    it.visited != [] || it.ended
  }

  /** An iterator has something on record exactly when it was looked at. */
  ghost predicate SeenOk(tx: Tx, l: Local) {
    && (forall h :: 0 <= h < |l.iters| ==> (Seen(l.iters[h]) <==> LookedAt(tx, l.hist, h)))
    && (forall h: nat :: h >= |l.iters| ==> !LookedAt(tx, l.hist, h))
  }

  /** What one call does to the iterators and the answers. */
  ghost predicate SeenMore(op: Op, l: Local, l': Local) {
    && |l'.hist| == |l.hist| + 1 && l'.hist[..|l.hist|] == l.hist
    && |l.iters| <= |l'.iters|
    && (forall h :: 0 <= h < |l.iters| ==> (Seen(l'.iters[h]) <==> Seen(l.iters[h]) || Looks(op, h)))
    && (forall h :: |l.iters| <= h < |l'.iters| ==> !Seen(l'.iters[h]))
    && (forall h: nat :: Looks(op, h) ==> h < |l.iters|)
  }

  lemma UpdateSees(op: Op, l: Local, h: nat, it: Iter, rs: ReadSet, r: Resp)
    requires h < |l.iters| && Looks(op, h) && Seen(it)
    ensures SeenMore(op, l, Reply(UpdateIter(l, h, it, rs), r))
  {
  }

  lemma ShownIsSeen(it: Iter, s: Skip)
    requires s.SkipAt? && (s.parent != [] || s.cache != []) && it.nexts <= |it.visited| <= it.nexts + 1
    ensures Seen(Shown(it, s))
  {
  }

  lemma LookSees(dom: Domain, op: Op, l: Local, h: nat, parent: KVMap, items: set<Key>, src: Key -> Source, l': Local)
    requires LocalOk(dom, l) && Looks(op, h) && LocalStep(op, l, parent, items, src) == Stepped(l')
    ensures SeenMore(op, l, l')
  {
    var it, s := l.iters[h], Skipped(l, h, src);
    assert IterOk(dom, it, l.writeset, l.readset);
    if SkipFound(s) {
      ShownIsSeen(it, s);
      var u := if op.Next? then Advance(Shown(it, s)) else Shown(it, s);
      assert l'.iters == l.iters[h := u];
      UpdateSees(op, l, h, u, l'.readset, l'.hist[|l.hist|]);
    } else {
      UpdateSees(op, l, h, End(Placed(it, s)), s.rs, Is(false));
    }
  }

  lemma StepSees(dom: Domain, op: Op, l: Local, parent: KVMap, items: set<Key>, src: Key -> Source, l': Local)
    requires LocalOk(dom, l) && LocalStep(op, l, parent, items, src) == Stepped(l')
    ensures SeenMore(op, l, l')
  {
    match op
    case Commit => OtherSees(op, l, parent, items, src, l');
    case Get(k) => OtherSees(op, l, parent, items, src, l');
    case Put(k, v) => OtherSees(op, l, parent, items, src, l');
    case Open(r, asc) => OtherSees(op, l, parent, items, src, l');
    case Close(h) => OtherSees(op, l, parent, items, src, l');
    case IsValid(h) => LookSees(dom, op, l, h, parent, items, src, l');
    case GetKey(h) => LookSees(dom, op, l, h, parent, items, src, l');
    case GetValue(h) => LookSees(dom, op, l, h, parent, items, src, l');
    case Next(h) => LookSees(dom, op, l, h, parent, items, src, l');
  }

  lemma OtherSees(op: Op, l: Local, parent: KVMap, items: set<Key>, src: Key -> Source, l': Local)
    requires LocalStep(op, l, parent, items, src) == Stepped(l') && forall h: nat :: !Looks(op, h)
    requires op.Commit? || op.Get? || op.Put? || op.Open? || op.Close?
    ensures SeenMore(op, l, l')
  {
    hide Read, Looks, Collected;
  }

  lemma SeenStep(tx: Tx, l: Local, l': Local)
    requires SeenOk(tx, l) && SeenMore(tx(l.hist), l, l')
    ensures SeenOk(tx, l')
  {
    assert l'.hist == l.hist + [l'.hist[|l.hist|]];
    forall h: nat ensures LookedAt(tx, l'.hist, h) <==> LookedAt(tx, l.hist, h) || Looks(tx(l.hist), h) {
      LookedAtMore(tx, l.hist, l'.hist[|l.hist|], h);
    }
  }

  // ----- The serial side -----

  ghost predicate LooksAtAll(tx: Tx, st: Serial) {
    forall h :: 0 <= h < |st.iters| ==> st.iters[h].keys == [] || LookedAt(tx, st.hist, h)
  }

  /** Run alone, the transaction commits after n calls and has looked at what it iterates over. */
  ghost predicate LooksAfter(tx: Tx, store: KVMap, n: nat) {
    CommitsAfter(tx, store, n) && LooksAtAll(tx, SerialAfter(tx, store, n).value)
  }

  ghost predicate LooksRun(tx: Tx, store: KVMap) {
    exists n: nat :: LooksAfter(tx, store, n)
  }

  /** Run one after another, all transactions of the block do. */
  ghost predicate SerialLooks(b: Block) {
    forall i :: 0 <= i < |b.txs| ==>
      RunAll(b.txs, b.parent, i).Some? && LooksRun(b.txs[i], RunAll(b.txs, b.parent, i).value)
  }

  lemma SerialStepAnswers(op: Op, st: Serial)
    requires SerialStep(op, st).Some?
    ensures |SerialStep(op, st).value.hist| == |st.hist| + 1 && SerialStep(op, st).value.hist[..|st.hist|] == st.hist
  {
  }

  /** Earlier calls of a serial run, and their answers. */
  lemma {:induction false} SerialEarlier(tx: Tx, store: KVMap, n: nat, k: nat)
    requires SerialAfter(tx, store, n).Some? && k <= n
    ensures SerialAfter(tx, store, k).Some?
    ensures |SerialAfter(tx, store, n).value.hist| == n
    ensures SerialAfter(tx, store, k).value.hist == SerialAfter(tx, store, n).value.hist[..k]
    decreases n
  {
    hide SerialStep;
    if n > 0 {
      var st := SerialAfter(tx, store, n - 1).value;
      SerialEarlier(tx, store, n - 1, if k < n then k else n - 1);
      SerialStepAnswers(tx(st.hist), st);
      var hist := SerialAfter(tx, store, n).value.hist;
      if k < n { assert hist[..n - 1][..k] == hist[..k]; } else { assert hist[..n] == hist; }
    }
  }

  // ----- An execution on a store that holds still -----

  ghost predicate StillBelow(b: Block, s: Shared, i: nat) {
    i < |b.txs| && Inv(s) && NoEstimatesBefore(s, i)
  }

  lemma ViewIsStill(b: Block, s: Shared, i: nat)
    requires StillBelow(b, s, i)
    ensures StillSource(SharedSource(s, b.parent, i), View(s, b.parent, i))
    ensures Covers(Collected(s, i), b.parent, View(s, b.parent, i))
  {
    forall k: Key ensures SharedSource(s, b.parent, i)(k) == Current(Lookup(View(s, b.parent, i), k)) {
      ViewReads(s, b.parent, i, k);
    }
    forall k: Key | k !in Collected(s, i) ensures Lookup(View(s, b.parent, i), k) == Lookup(b.parent, k) {
      ReplayFindsVersions(s, i, k);
    }
  }

  /** A place in the execution that the serial run reaches too. */
  ghost predicate InStep(tx: Tx, l: Local, view: KVMap, n: nat) {
    StillOk(l, view) && SeenOk(tx, l) && SerialAfter(tx, view, n) == Some(SerialOf(l, view)) && |l.hist| == n
  }

  lemma StartInStep(tx: Tx, view: KVMap)
    ensures InStep(tx, Start, view, 0)
  {
    OverlayUnique(view, map[], view);
    assert SerialOf(Start, view).iters == [];
  }

  /** One more call. */
  lemma NextInStep(b: Block, s: Shared, i: nat, l: Local, n: nat) returns (l': Local)
    requires StillBelow(b, s, i) && InStep(b.txs[i], l, View(s, b.parent, i), n)
    requires SerialAfter(b.txs[i], View(s, b.parent, i), n + 1).Some?
    ensures Calls(b, s, i, l, l') && InStep(b.txs[i], l', View(s, b.parent, i), n + 1)
  {
    var tx, view, src, items := b.txs[i], View(s, b.parent, i), SharedSource(s, b.parent, i), Collected(s, i);
    ViewIsStill(b, s, i);
    StillStep(tx(l.hist), l, b.parent, items, src, view);
    l' := LocalStep(tx(l.hist), l, b.parent, items, src).local;
    StepSees(InView(view), tx(l.hist), l, b.parent, items, src, l');
    SeenStep(tx, l, l');
  }

  /** The serial run of transaction i can make m calls. */
  ghost predicate CanRun(b: Block, s: Shared, i: nat, m: nat) {
    StillBelow(b, s, i) && SerialAfter(b.txs[i], View(s, b.parent, i), m).Some?
  }

  ghost function PlaceAfter(b: Block, s: Shared, i: nat, n: nat): Local -> bool
    requires i < |b.txs|
  {
    l => InStep(b.txs[i], l, View(s, b.parent, i), n)
  }

  /** An execution arrives where the serial run is after n calls. */
  ghost predicate Arrives(b: Block, s: Shared, i: nat, n: nat)
    requires i < |b.txs|
  {
    Reachable(CallOf(b, s, i), Start, PlaceAfter(b, s, i, n))
  }

  lemma CallAgain(b: Block, s: Shared, i: nat, n: nat, m: nat, l: Local)
    requires CanRun(b, s, i, m) && n < m && PlaceAfter(b, s, i, n)(l)
    ensures exists l' :: CallOf(b, s, i)(l, l') && PlaceAfter(b, s, i, n + 1)(l')
  {
    var tx, view := b.txs[i], View(s, b.parent, i);
    SerialEarlier(tx, view, m, n);
    SerialEarlier(tx, view, m, n + 1);
    var l' := NextInStep(b, s, i, l, n);
    assert CallOf(b, s, i)(l, l') && PlaceAfter(b, s, i, n + 1)(l');
  }

  lemma ArrivesNext(b: Block, s: Shared, i: nat, n: nat, m: nat)
    requires CanRun(b, s, i, m) && n < m && Arrives(b, s, i, n)
    ensures Arrives(b, s, i, n + 1)
  {
    forall l | PlaceAfter(b, s, i, n)(l) ensures exists l' :: CallOf(b, s, i)(l, l') && PlaceAfter(b, s, i, n + 1)(l') {
      CallAgain(b, s, i, n, m, l);
    }
    ReachStep(CallOf(b, s, i), Start, PlaceAfter(b, s, i, n), PlaceAfter(b, s, i, n + 1));
  }

  lemma ArrivesStart(b: Block, s: Shared, i: nat)
    requires i < |b.txs|
    ensures Arrives(b, s, i, 0)
  {
    StartInStep(b.txs[i], View(s, b.parent, i));
    ReachStart(CallOf(b, s, i), Start, PlaceAfter(b, s, i, 0));
  }

  lemma {:induction false} StepByStep(p: nat -> bool, m: nat)
    requires p(0) && forall n: nat :: n < m && p(n) ==> p(n + 1)
    ensures p(m)
  {
    if m > 0 { StepByStep(p, m - 1); }
  }

  /** The execution follows the serial run to its end. */
  lemma StillTrace(b: Block, s: Shared, i: nat, m: nat)
    requires CanRun(b, s, i, m) && i < |b.txs|
    ensures Arrives(b, s, i, m)
  {
    hide *;
    ArrivesStart(b, s, i);
    var p := (n: nat) => Arrives(b, s, i, n);
    forall n: nat | n < m && p(n) ensures p(n + 1) { ArrivesNext(b, s, i, n, m); }
    StepByStep(p, m);
  }

  // ----- When a record validates -----

  lemma {:induction false} UpToLast(asc: bool, scan: seq<Key>, n: nat)
    requires Ordered(asc, scan) && 0 < n <= |scan|
    ensures UpTo(scan, Some(scan[n - 1])) == scan[..n]
  {
    if n > 1 {
      OrderedDistinct(asc, scan);
      UpToLast(asc, scan[1..], n - 1);
      assert scan[..n] == [scan[0]] + scan[1..][..n - 1];
    }
  }

  ghost predicate Passes(it: Iter, view: KVMap) {
    Elements(UpTo(FreshScan(view, it.tracker), it.tracker.earlyStop)) == it.tracker.iteratedKeys
  }

  ghost predicate Shows(it: Iter, view: KVMap) {
    Seen(it) || FreshScan(view, it.tracker) == []
  }

  lemma CutAt(asc: bool, scan: seq<Key>, visited: seq<Key>, ended: bool, stop: Option<Key>)
    requires Ordered(asc, scan) && visited <= scan && (ended ==> visited == scan)
    requires stop == if ended || visited == [] then None else Some(visited[|visited| - 1])
    ensures UpTo(scan, stop) == if ended || visited == [] then scan else visited
  {
    UpToIsPrefix(scan, stop);
    if !ended && visited != [] { UpToLast(asc, scan, |visited|); }
  }

  lemma NoElements(scan: seq<Key>)
    ensures Elements(scan) == Elements([]) <==> scan == []
  {
    if scan != [] { assert scan[0] in Elements(scan); }
  }

  /** The record of an iteration that met what the view holds passes, unless nobody looked and there was something. */
  lemma PassesIffShows(it: Iter, view: KVMap)
    requires TrackerOk(it) && IterAgrees(it, view)
    ensures Passes(it, view) <==> Shows(it, view)
  {
    var scan := FreshScan(view, it.tracker);
    assert Ordered(it.tracker.ascending, scan);
    assert Passes(it, view) <==> Elements(UpTo(scan, it.tracker.earlyStop)) == Elements(it.visited);
    assert Shows(it, view) <==> it.visited != [] || it.ended || scan == [];
    hide *;
    CutAt(it.tracker.ascending, scan, it.visited, it.ended, it.tracker.earlyStop);
    NoElements(scan);
  }

  lemma TrackersPass(s: Shared, parent: KVMap, i: nat, iters: seq<Iter>)
    requires Inv(s) && forall h :: 0 <= h < |iters| ==> TrackerOk(iters[h]) && IterAgrees(iters[h], View(s, parent, i))
    ensures TrackersValid(s, parent, i, Trackers(iters)) <==>
              forall h :: 0 <= h < |iters| ==> Shows(iters[h], View(s, parent, i))
  {
    hide Inv, TrackerOk, IterAgrees, View, Shows, ValidateIterator;
    forall h | 0 <= h < |iters|
      ensures ValidateIterator(s, parent, i, Trackers(iters)[h]) <==> Shows(iters[h], View(s, parent, i))
    {
      TrackerPasses(s, parent, i, iters[h]);
    }
  }

  lemma TrackerPasses(s: Shared, parent: KVMap, i: nat, it: Iter)
    requires Inv(s) && TrackerOk(it) && IterAgrees(it, View(s, parent, i))
    ensures ValidateIterator(s, parent, i, it.tracker) <==> Shows(it, View(s, parent, i))
  {
    hide Inv, TrackerOk, IterAgrees, View, Shows, ValidateIterator;
    PhantomCheckExact(s, parent, i, it.tracker);
    PassesIffShows(it, View(s, parent, i));
  }

  ghost predicate ShowsAll(l: Local, view: KVMap) {
    forall h :: 0 <= h < |l.iters| ==> Shows(l.iters[h], view)
  }

  /** A record of what the view holds validates without conflicts exactly when its iterators were looked at. */
  lemma RecordValidates(dom: Domain, b: Block, s: Shared, i: nat, l: Local)
    requires Inv(s) && NoEstimatesBefore(s, i) && ReadsetAt(s, i) == l.readset
    requires IteratesetAt(s, i) == Trackers(l.iters)
    requires LocalOk(dom, l) && Agrees(l, View(s, b.parent, i))
    ensures ValidState(s, b.parent, i) && Conflicts(s, b.parent, i) == {} <==> ShowsAll(l, View(s, b.parent, i))
  {
    forall h | 0 <= h < |l.iters|
      ensures TrackerOk(l.iters[h])
    {
      assert IterOk(dom, l.iters[h], l.writeset, l.readset);
    }
    TrackersPass(s, b.parent, i, l.iters);
    forall k | k in l.readset
      ensures ReadValid(s, b.parent, i, k, l.readset[k]) && !ReadConflicts(s, b.parent, i, k, l.readset[k])
    {
      ReadPasses(s, b.parent, i, k);
    }
  }

  lemma ReadPasses(s: Shared, parent: KVMap, i: nat, k: Key)
    requires NoEstimatesBefore(s, i)
    ensures ReadValid(s, parent, i, k, [Lookup(View(s, parent, i), k)])
    ensures !ReadConflicts(s, parent, i, k, [Lookup(View(s, parent, i), k)])
  {
    ReadValidExact(s, parent, i, k, Lookup(View(s, parent, i), k));
    LatestBeforeIsGreatest(ItemAt(s, k), i);
    if LatestFor(s, i, k).Some? {
      var j :| 0 <= j < i && j in ItemAt(s, k) && LatestFor(s, i, k).value == ItemAt(s, k)[j];
      assert Holds(s, j, k);
    }
  }

  lemma LooksIffShows(tx: Tx, l: Local, view: KVMap)
    requires SeenOk(tx, l)
    ensures LooksAtAll(tx, SerialOf(l, view)) <==> ShowsAll(l, view)
  {
    var st := SerialOf(l, view);
    assert forall h :: 0 <= h < |l.iters| ==> st.iters[h].keys == FreshScan(view, l.iters[h].tracker);
    if LooksAtAll(tx, st) {
      forall h | 0 <= h < |l.iters|
        ensures Shows(l.iters[h], view)
      {
        assert st.iters[h].keys == [] || LookedAt(tx, st.hist, h);
      }
    }
  }

  // ----- Such a block is accepted: run it in order -----

  /** What is published at one index does not show below it. */
  lemma ViewFrame(t: Shared, u: Shared, parent: KVMap, m: nat, i: nat)
    requires SameExcept(t, u, m) && i <= m
    ensures View(u, parent, i) == View(t, parent, i)
  {
    forall k: Key ensures LatestFor(u, i, k) == LatestFor(t, i, k) {
      forall j | 0 <= j < i
        ensures (j in ItemAt(t, k) <==> j in ItemAt(u, k)) && (j in ItemAt(t, k) ==> ItemAt(t, k)[j] == ItemAt(u, k)[j])
      {
        assert Holds(t, j, k) <==> Holds(u, j, k);
      }
      LatestBeforeFrame(ItemAt(t, k), ItemAt(u, k), i);
    }
    assert Below(u, i) == Below(t, i);
  }

  /** A finished execution that is the serial run on its view, and looked at what it iterates over. */
  ghost predicate Settled(tx: Tx, l: Local, view: KVMap) {
    InStep(tx, l, view, |l.hist|) && tx(l.hist).Commit? && ShowsAll(l, view)
  }

  /** On a store that holds still, such a transaction runs to its end. */
  lemma LookingExecutes(b: Block, s: Shared, i: nat) returns (trace: seq<Local>, l: Local)
    requires StillBelow(b, s, i) && LooksRun(b.txs[i], View(s, b.parent, i))
    ensures Executes(b, s, i, trace) && l == trace[|trace| - 1] && Settled(b.txs[i], l, View(s, b.parent, i))
  {
    var tx, view := b.txs[i], View(s, b.parent, i);
    var n: nat :| LooksAfter(tx, view, n);
    StillTrace(b, s, i, n);
    trace :| Chain(CallOf(b, s, i), Start, trace) && PlaceAfter(b, s, i, n)(trace[|trace| - 1]);
    l := trace[|trace| - 1];
    assert InStep(tx, l, view, n);
    LooksIffShows(tx, l, view);
  }

  /** The first m transactions have run in order, each as the serial run does. */
  ghost predicate InOrder(b: Block, m: nat, acts: seq<Action>, t: Shared, ls: map<nat, Local>) {
    && m <= |b.txs| && Reached(b, acts, t, ls) && (forall i :: i in ls <==> 0 <= i < m)
    && (forall i :: 0 <= i < m ==> Settled(b.txs[i], ls[i], View(t, b.parent, i)))
    && RunAll(b.txs, b.parent, m) == Some(View(t, b.parent, m))
  }

  lemma StartInOrder(b: Block)
    ensures InOrder(b, 0, [], Fresh, map[])
  {
    StartReached(b);
    FirstView(Fresh, b.parent);
  }

  lemma ReachedIsStill(b: Block, acts: seq<Action>, t: Shared, ls: map<nat, Local>, i: nat)
    requires Reached(b, acts, t, ls) && i < |b.txs|
    ensures StillBelow(b, t, i)
  {
    forall j: nat, k: Key | Holds(t, j, k)
      ensures !ItemAt(t, k)[j].IsEstimate()
    {
      assert j in ls && k in ls[j].writeset;
    }
  }

  /** The views an execution leaves behind. */
  lemma ViewsAfter(b: Block, m: nat, t: Shared, l: Local)
    requires m < |b.txs| && Inv(t) && Settled(b.txs[m], l, View(t, b.parent, m))
    requires RunAll(b.txs, b.parent, m) == Some(View(t, b.parent, m))
    ensures forall i :: 0 <= i <= m ==> View(PublishedState(t, m, 0, l), b.parent, i) == View(t, b.parent, i)
    ensures RunAll(b.txs, b.parent, m + 1) == Some(View(PublishedState(t, m, 0, l), b.parent, m + 1))
  {
    var u, view := PublishedState(t, m, 0, l), View(t, b.parent, m);
    assert CommitsAfter(b.txs[m], view, |l.hist|);
    assert SerialAfter(b.txs[m], view, |l.hist|).value.store == Overlay(view, l.writeset);
    hide Inv, Settled, SerialAfter, CommitsAfter, PublishedState, View, Overlay, SameExcept, RunAlone;
    PublishKeeps(t, m, 0, l);
    PublishHolds(t, m, 0, l);
    forall i | 0 <= i <= m ensures View(u, b.parent, i) == View(t, b.parent, i) { ViewFrame(t, u, b.parent, m, i); }
    NextView(u, b.parent, m, l);
    RunAloneIs(b.txs[m], view, |l.hist|);
  }

  lemma NextInOrder(b: Block, m: nat, acts: seq<Action>, t: Shared, ls: map<nat, Local>)
    returns (more: seq<Action>, u: Shared, l: Local)
    requires SerialLooks(b) && m < |b.txs| && InOrder(b, m, acts, t, ls)
    ensures InOrder(b, m + 1, more, u, ls[m := l])
  {
    hide Settled, Leads, HoldsAll, View, RunAll, LooksRun, StillBelow, PublishedState, Executes, Inv;
    ReachedIsStill(b, acts, t, ls, m);
    var trace;
    trace, l := LookingExecutes(b, t, m);
    more, u := RunOneMore(b, acts, t, ls, m, trace, l);
    assert Inv(t) by { HoldsInv(t, ls); }
    ViewsAfter(b, m, t, l);
  }

  lemma HoldsInv(t: Shared, ls: map<nat, Local>)
    requires HoldsAll(t, ls)
    ensures Inv(t)
  {
  }

  lemma {:induction false} RunInOrder(b: Block, m: nat) returns (acts: seq<Action>, t: Shared, ls: map<nat, Local>)
    requires SerialLooks(b) && m <= |b.txs|
    ensures InOrder(b, m, acts, t, ls)
  {
    hide InOrder, SerialLooks;
    if m == 0 {
      StartInOrder(b);
      acts, t, ls := [], Fresh, map[];
    } else {
      var before, s, ms := RunInOrder(b, m - 1);
      var l;
      acts, t, l := NextInOrder(b, m - 1, before, s, ms);
      ls := ms[m - 1 := l];
    }
  }

  ghost predicate AcceptedRun(b: Block, acts: seq<Action>) {
    FromStore(b, acts) && Run(b, acts).Some? && Accepted(b, Run(b, acts).value)
  }

  /** Some run of the block is accepted. */
  ghost predicate Acceptable(b: Block) {
    exists acts :: AcceptedRun(b, acts)
  }

  lemma InOrderAccepted(b: Block, acts: seq<Action>, t: Shared, ls: map<nat, Local>)
    requires InOrder(b, |b.txs|, acts, t, ls)
    ensures Accepted(b, System(t, map[], ls))
  {
    forall i | 0 <= i < |b.txs| ensures ValidState(t, b.parent, i) && Conflicts(t, b.parent, i) == {} {
      ReachedIsStill(b, acts, t, ls, i);
      assert Settled(b.txs[i], ls[i], View(t, b.parent, i));
      RecordValidates(InView(View(t, b.parent, i)), b, t, i, ls[i]);
    }
  }

  /** Whatever values it reads and writes, a block whose serial execution commits and looks is accepted, and that with
      every call meeting one state of the store. */
  lemma LookingIsAccepted(b: Block) returns (acts: seq<Action>)
    requires SerialLooks(b)
    ensures AtOnce(b, acts) && AcceptedRun(b, acts)
  {
    hide AtOnce, FromStore, Run, Accepted, InOrder, SerialLooks;
    var t, ls;
    acts, t, ls := RunInOrder(b, |b.txs|);
    InOrderLeads(b, |b.txs|, acts, t, ls);
    AtOnceFromStore(b, acts);
    InOrderAccepted(b, acts, t, ls);
  }

  lemma InOrderLeads(b: Block, m: nat, acts: seq<Action>, t: Shared, ls: map<nat, Local>)
    requires InOrder(b, m, acts, t, ls)
    ensures Leads(b, acts, System(t, map[], ls))
  {
  }

  // ----- An accepted block looks -----

  ghost predicate AllSeen(b: Block, s: System) {
    && (forall i :: i in s.running ==> i < |b.txs| && SeenOk(b.txs[i], s.running[i]))
    && (forall i :: i in s.clean ==> i < |b.txs| && SeenOk(b.txs[i], s.clean[i]))
  }

  lemma RunningLocal(dom: Domain, b: Block, s: System, i: nat)
    requires SystemOk(dom, b, s) && i in s.running
    ensures i < |b.txs| && LocalOk(dom, s.running[i])
  {
    assert RunningOk(dom, b.txs[i], s.running[i]);
  }

  lemma SeenExec(dom: Domain, b: Block, s: System, i: nat, items: set<Key>, src: Key -> Source)
    requires SystemOk(dom, b, s) && AllSeen(b, s) && i < |b.txs| && i in s.running
    requires ExecStep(b, s, i, items, src).Some?
    ensures AllSeen(b, ExecStep(b, s, i, items, src).value)
  {
    hide SystemOk, LocalOk, LocalStep, SeenOk;
    var tx, l := b.txs[i], s.running[i];
    RunningLocal(dom, b, s, i);
    var r := LocalStep(tx(l.hist), l, b.parent, items, src);
    if r.Stepped? {
      StepSees(dom, tx(l.hist), l, b.parent, items, src, r.local);
      SeenStep(tx, l, r.local);
    }
  }

  lemma SeenAction(dom: Domain, b: Block, s: System, a: Action)
    requires SystemOk(dom, b, s) && AllSeen(b, s) && Do(b, s, a).Some?
    ensures AllSeen(b, Do(b, s, a).value)
  {
    hide SystemOk, ExecStep, SeenOk, PublishedState, SetEstimatedWriteset, InvalidateWriteset;
    match a
    case Begin(i) => StartSeen(b.txs[i]);
    case Exec(i, items, src) => SeenExec(dom, b, s, i, items, src);
    case _ =>
  }

  lemma StartSeen(tx: Tx)
    ensures SeenOk(tx, Start)
  {
  }

  lemma {:induction false} EveryRunSeen(dom: Domain, b: Block, acts: seq<Action>)
    requires Apart(dom) && ParentWithin(dom, b.parent) && Tame(dom, b, acts) && Run(b, acts).Some?
    ensures AllSeen(b, Run(b, acts).value)
  {
    hide Do, SystemOk, ParentWithin, SeenOk, Apart, TameCall;
    if acts != [] {
      var before := acts[..|acts| - 1];
      EveryRunSeen(dom, b, before);
      EveryRunOk(dom, b, before);
      SeenAction(dom, b, Run(b, before).value, acts[|acts| - 1]);
    }
  }

  /** An accepted transaction, run on its view, commits and looks. */
  lemma AcceptedLooks(dom: Domain, b: Block, s: System, i: nat)
    requires SystemOk(dom, b, s) && ParentWithin(dom, b.parent) && Accepted(b, s) && AllSeen(b, s) && i < |b.txs|
    ensures LooksRun(b.txs[i], View(s.shared, b.parent, i))
  {
    var l, view, tx := s.clean[i], View(s.shared, b.parent, i), b.txs[i];
    assert CleanOk(dom, b, s.shared, i, l);
    CleanHasNoEstimates(dom, b, s, i);
    ValidatedAgrees(dom, b, s.shared, i, l);
    assert SerialAfter(tx, view, |l.hist|) == Some(SerialOf(l, view));
    forall h | 0 <= h < |l.iters|
      ensures TrackerOk(l.iters[h])
    {
      assert IterOk(dom, l.iters[h], l.writeset, l.readset);
    }
    if l.iters != [] { TrackersPass(s.shared, b.parent, i, l.iters); }
    LooksIffShows(tx, l, view);
    assert LooksAfter(tx, view, |l.hist|);
  }

  lemma AcceptedBlockLooks(dom: Domain, b: Block, acts: seq<Action>)
    requires Apart(dom) && ParentWithin(dom, b.parent) && Tame(dom, b, acts)
    requires Run(b, acts).Some? && Accepted(b, Run(b, acts).value)
    ensures SerialLooks(b)
  {
    var s := Run(b, acts).value;
    hide Run, Accepted, LooksRun, SystemOk, AllSeen, RunAll, ParentWithin, View, Tame, Apart;
    EveryRunOk(dom, b, acts);
    EveryRunSeen(dom, b, acts);
    forall i | 0 <= i < |b.txs|
      ensures RunAll(b.txs, b.parent, i).Some? && LooksRun(b.txs[i], RunAll(b.txs, b.parent, i).value)
    {
      AcceptedViews(dom, b, s, i);
      AcceptedLooks(dom, b, s, i);
    }
  }

  /** A block whose values bytes.Equal tells apart can be accepted exactly when its serial execution commits and
      looks. */
  lemma AcceptableIffLooks(dom: Domain, b: Block)
    requires Apart(dom) && Within(dom, b)
    ensures Acceptable(b) <==> SerialLooks(b)
  {
    hide Run, Accepted, SerialLooks, FromStore, Tame, ParentWithin;
    if SerialLooks(b) { var acts := LookingIsAccepted(b); }
    if acts :| AcceptedRun(b, acts) {
      StoreRunsTame(dom, b, acts);
      AcceptedBlockLooks(dom, b, acts);
    }
  }

  /** A transaction that opens an iterator and commits without looking at it. */
  function OpensOnly(r: Range, asc: bool): Tx {
    hist => if hist == [] then Open(r, asc) else Commit
  }

  lemma OpensOnlyAfter(store: KVMap, r: Range, asc: bool)
    ensures SerialAfter(OpensOnly(r, asc), store, 1)
         == Some(Serial(store, [SerialIter(r, asc, store, Scan(asc, r, store.Keys), 0, true)], [Done]))
    ensures CommitsAfter(OpensOnly(r, asc), store, 1)
  {
    var hist: seq<Resp> := [];
    var iters: seq<SerialIter> := [];
    var it := SerialIter(r, asc, store, Scan(asc, r, store.Keys), 0, true);
    assert SerialAfter(OpensOnly(r, asc), store, 0) == Some(Serial(store, iters, hist));
    assert hist + [Done] == [Done] && iters + [it] == [it];
    assert SerialStep(Open(r, asc), Serial(store, iters, hist)) == Some(Serial(store, [it], [Done]));
  }

  lemma OpensOnlyLooks(store: KVMap, r: Range, asc: bool)
    ensures LooksRun(OpensOnly(r, asc), store) <==> Scan(asc, r, store.Keys) == []
  {
    var tx := OpensOnly(r, asc);
    OpensOnlyAfter(store, r, asc);
    var st := SerialAfter(tx, store, 1).value;
    assert st.iters[0].keys == Scan(asc, r, store.Keys) && !LookedAt(tx, st.hist, 0);
    assert LooksAtAll(tx, st) <==> Scan(asc, r, store.Keys) == [];
    if n: nat :| LooksAfter(tx, store, n) {
      if n > 1 { StuckAfterCommit(tx, store, 1, n); }
      assert n == 1;
    }
    assert LooksAfter(tx, store, 1) <==> Scan(asc, r, store.Keys) == [];
  }

  lemma OpensOnlyWithin(store: KVMap, r: Range, asc: bool)
    ensures Apart(InView(store)) && Within(InView(store), Block([OpensOnly(r, asc)], store))
  {
  }

  /** On its own it leaves the store as it is, yet no run of it is ever accepted if the range holds a key. */
  lemma UnlookedIteratorRejected(store: KVMap, r: Range, asc: bool)
    ensures var b := Block([OpensOnly(r, asc)], store);
            RunAll(b.txs, store, 1) == Some(store) && (Acceptable(b) <==> Scan(asc, r, store.Keys) == [])
  {
    var tx := OpensOnly(r, asc);
    var b := Block([tx], store);
    OpensOnlyAfter(store, r, asc);
    RunAloneIs(tx, store, 1);
    OpensOnlyLooks(store, r, asc);
    OpensOnlyWithin(store, r, asc);
    hide Acceptable, LooksRun, SerialAfter, RunAlone;
    assert RunAll(b.txs, store, 0) == Some(store);
    assert SerialLooks(b) <==> LooksRun(tx, store);
    AcceptableIffLooks(InView(store), b);
  }
}

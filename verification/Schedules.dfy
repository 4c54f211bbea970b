/** Schedules put together from whole executions: a transaction runs from start to end and publishes while no other
    one acts. */
module Schedules {
  import opened Bytes
  import opened VersionedItem
  import opened MergeIterator
  import opened MultiVersion
  import opened Execution
  import opened Serializability

  /** The call meets one state of the store, the current one. */
  ghost predicate CurrentCall(b: Block, before: Option<System>, a: Action) {
    a.Exec? ==>
      && before.Some? && a.items == Collected(before.value.shared, a.index)
      && a.src == SharedSource(before.value.shared, b.parent, a.index)
  }

  ghost predicate AtOnce(b: Block, acts: seq<Action>) {
    var n := |acts| - 1;
    acts == [] || (AtOnce(b, acts[..n]) && CurrentCall(b, Run(b, acts[..n]), acts[n]))
  }

  lemma {:induction false} AtOnceFromStore(b: Block, acts: seq<Action>)
    requires AtOnce(b, acts)
    ensures FromStore(b, acts)
  {
    if acts != [] {
      var before, a := acts[..|acts| - 1], acts[|acts| - 1];
      AtOnceFromStore(b, before);
      assert before[..|before|] == before;
      if a.Exec? {
        forall k: Key ensures AnsweredEver(b, before, a, k) { assert AnsweredAt(b, before[..|before|], a, k); }
      }
    }
  }

  /** These actions, each call meeting the store as it is, lead to this state. */
  ghost predicate Leads(b: Block, acts: seq<Action>, s: System) {
    Run(b, acts) == Some(s) && AtOnce(b, acts)
  }

  lemma Extend(b: Block, acts: seq<Action>, s: System, a: Action, t: System)
    requires Leads(b, acts, s) && Do(b, s, a) == Some(t) && CurrentCall(b, Some(s), a)
    ensures Leads(b, acts + [a], t)
  {
    assert (acts + [a])[..|acts|] == acts;
  }

  /** One call of transaction i while the shared state is s. */
  ghost predicate Calls(b: Block, s: Shared, i: nat, l: Local, l': Local)
    requires i < |b.txs|
  {
    LocalStep(b.txs[i](l.hist), l, b.parent, Collected(s, i), SharedSource(s, b.parent, i)) == Stepped(l')
  }

  function CallAction(b: Block, s: Shared, i: nat): Action {
    Exec(i, Collected(s, i), SharedSource(s, b.parent, i))
  }

  /** A sequence of steps from `start` on. */
  ghost predicate Chain<T(!new)>(step: (T, T) -> bool, start: T, ls: seq<T>) {
    var n := |ls| - 1;
    n >= 0 && if n == 0 then ls[0] == start else Chain(step, start, ls[..n]) && step(ls[n - 1], ls[n])
  }

  /** Some such sequence ends in a place like this. */
  ghost predicate Reachable<T(!new)>(step: (T, T) -> bool, start: T, goal: T -> bool) {
    exists ls: seq<T> :: Chain(step, start, ls) && goal(ls[|ls| - 1])
  }

  lemma ReachStart<T(!new)>(step: (T, T) -> bool, start: T, goal: T -> bool)
    requires goal(start)
    ensures Reachable(step, start, goal)
  {
    assert Chain(step, start, [start]);
  }

  lemma ReachStep<T(!new)>(step: (T, T) -> bool, start: T, here: T -> bool, there: T -> bool)
    requires Reachable(step, start, here) && forall x :: here(x) ==> exists y :: step(x, y) && there(y)
    ensures Reachable(step, start, there)
  {
    var ls: seq<T> :| Chain(step, start, ls) && here(ls[|ls| - 1]);
    var y :| step(ls[|ls| - 1], y) && there(y);
    var more := ls + [y];
    assert more[..|ls|] == ls && more[|ls| - 1] == ls[|ls| - 1];
    assert Chain(step, start, more);
  }

  ghost function CallOf(b: Block, s: Shared, i: nat): (Local, Local) -> bool
    requires i < |b.txs|
  {
    (l, l') => Calls(b, s, i, l, l')
  }

  /** The places transaction i passes from its start on, on the shared state s. */
  ghost predicate Trace(b: Block, s: Shared, i: nat, ls: seq<Local>)
    requires i < |b.txs|
  {
    Chain(CallOf(b, s, i), Start, ls)
  }

  /** A whole execution. */
  ghost predicate Executes(b: Block, s: Shared, i: nat, ls: seq<Local>) {
    i < |b.txs| && Trace(b, s, i, ls) && b.txs[i](ls[|ls| - 1].hist).Commit?
  }

  lemma {:induction false} SoloCalls(b: Block, acts: seq<Action>, s: System, i: nat, ls: seq<Local>)
    returns (more: seq<Action>)
    requires Leads(b, acts, s) && i < |b.txs| && Trace(b, s.shared, i, ls)
    ensures Leads(b, more, s.(running := s.running[i := ls[|ls| - 1]]))
    decreases |ls|
  {
    hide Leads, Calls, ExecStep;
    var n := |ls| - 1;
    if n == 0 {
      more := acts + [Begin(i)];
      Extend(b, acts, s, Begin(i), s.(running := s.running[i := Start]));
    } else {
      var before := SoloCalls(b, acts, s, i, ls[..n]);
      more := OneCall(b, before, s, i, ls[n - 1], ls[n]);
    }
  }

  lemma OneCall(b: Block, acts: seq<Action>, s: System, i: nat, l: Local, l': Local) returns (more: seq<Action>)
    requires i < |b.txs| && Leads(b, acts, s.(running := s.running[i := l])) && Calls(b, s.shared, i, l, l')
    ensures Leads(b, more, s.(running := s.running[i := l']))
  {
    var t := s.(running := s.running[i := l]);
    assert t.running[i := l'] == s.running[i := l'];
    Extend(b, acts, t, CallAction(b, s.shared, i), s.(running := s.running[i := l']));
    more := acts + [CallAction(b, s.shared, i)];
  }

  /** Running a transaction from start to end adds its publication and nothing else. */
  lemma SoloRun(b: Block, acts: seq<Action>, s: System, i: nat, ls: seq<Local>) returns (more: seq<Action>)
    requires Leads(b, acts, s) && s.running == map[] && Executes(b, s.shared, i, ls)
    ensures var l := ls[|ls| - 1];
            Leads(b, more, System(PublishedState(s.shared, i, 0, l), map[], s.clean[i := l]))
  {
    var l := ls[|ls| - 1];
    hide Leads, Trace, PublishedState;
    var before := SoloCalls(b, acts, s, i, ls);
    var t := s.(running := s.running[i := l]);
    assert t.running - {i} == map[];
    Extend(b, before, t, Publish(i, 0), System(PublishedState(s.shared, i, 0, l), map[], s.clean[i := l]));
    more := before + [Publish(i, 0)];
  }

  // ----- What publications leave -----

  ghost predicate VersionsMatch(t: Shared, ls: map<nat, Local>) {
    && (forall i: nat, k: Key :: Holds(t, i, k) <==> i in ls && k in ls[i].writeset)
    && (forall i: nat, k: Key :: i in ls && k in ls[i].writeset ==>
          ItemAt(t, k)[i].value == ls[i].writeset[k] && !ItemAt(t, k)[i].IsEstimate())
  }

  ghost predicate RecordsMatch(t: Shared, ls: map<nat, Local>) {
    && (forall i: nat :: i in ls ==> ReadsetAt(t, i) == ls[i].readset && IteratesetAt(t, i) == Trackers(ls[i].iters))
    && (forall i: nat :: i !in ls ==> ReadsetAt(t, i) == map[] && IteratesetAt(t, i) == [])
  }

  /** The shared state holds exactly the versions and records of these finished executions. */
  ghost predicate HoldsAll(t: Shared, ls: map<nat, Local>) {
    Inv(t) && VersionsMatch(t, ls) && RecordsMatch(t, ls)
  }

  lemma NothingPublished()
    ensures HoldsAll(Fresh, map[])
  {
    assert forall k: Key :: ItemAt(Fresh, k) == map[];
  }

  /** A record that replaces one is not empty where that one was not. */
  predicate Replaces(ls: map<nat, Local>, i: nat, l: Local) {
    i in ls ==> (l.readset == map[] ==> ls[i].readset == map[]) && (l.iters == [] ==> ls[i].iters == [])
  }

  lemma PublishMore(t: Shared, ls: map<nat, Local>, i: nat, l: Local)
    requires HoldsAll(t, ls) && Replaces(ls, i, l)
    ensures HoldsAll(PublishedState(t, i, 0, l), ls[i := l])
  {
    PublishHolds(t, i, 0, l);
    PublishKeeps(t, i, 0, l);
    MoreVersions(t, PublishedState(t, i, 0, l), ls, i, l);
    WritesetKeepsRecords(t, i, l.writeset);
    MoreRecords(t, SetWriteset(t, i, 0, l.writeset), ls, i, l);
  }

  lemma MoreVersions(t: Shared, u: Shared, ls: map<nat, Local>, i: nat, l: Local)
    requires VersionsMatch(t, ls) && Holding(u, i, l) && SameExcept(t, u, i)
    ensures VersionsMatch(u, ls[i := l])
  {
    forall j: nat, k: Key ensures Holds(u, j, k) <==> j in ls[i := l] && k in ls[i := l][j].writeset {
      if j != i { assert Holds(u, j, k) <==> Holds(t, j, k); }
    }
    forall j: nat, k: Key | j in ls[i := l] && k in ls[i := l][j].writeset
      ensures ItemAt(u, k)[j].value == ls[i := l][j].writeset[k] && !ItemAt(u, k)[j].IsEstimate()
    {
      assert Holds(u, j, k);
      if j != i { assert Holds(t, j, k); }
    }
  }

  lemma WritesetKeepsRecords(t: Shared, i: nat, ws: WriteSet)
    ensures SetWriteset(t, i, 0, ws).readsets == t.readsets && SetWriteset(t, i, 0, ws).iteratesets == t.iteratesets
  {
  }

  lemma MoreRecords(t: Shared, w: Shared, ls: map<nat, Local>, i: nat, l: Local)
    requires RecordsMatch(t, ls) && Replaces(ls, i, l) && w.readsets == t.readsets && w.iteratesets == t.iteratesets
    ensures RecordsMatch(SetRecords(w, i, l), ls[i := l])
  {
    var u := SetRecords(w, i, l);
    OwnRecords(t, u, ls, i, l);
    forall j: nat | j != i ensures ReadsetAt(u, j) == ReadsetAt(t, j) && IteratesetAt(u, j) == IteratesetAt(t, j) {
      OtherRecords(t, w, i, l, j);
    }
    hide SetRecords, ReadsetAt, IteratesetAt, Replaces, Trackers;
    forall j: nat | j in ls[i := l]
      ensures ReadsetAt(u, j) == ls[i := l][j].readset && IteratesetAt(u, j) == Trackers(ls[i := l][j].iters)
    {
      if j != i { assert j in ls; }
    }
    forall j: nat | j !in ls[i := l] ensures ReadsetAt(u, j) == map[] && IteratesetAt(u, j) == [] { assert j !in ls; }
  }

  lemma OtherRecords(t: Shared, w: Shared, i: nat, l: Local, j: nat)
    requires w.readsets == t.readsets && w.iteratesets == t.iteratesets && j != i
    ensures ReadsetAt(SetRecords(w, i, l), j) == ReadsetAt(t, j)
    ensures IteratesetAt(SetRecords(w, i, l), j) == IteratesetAt(t, j)
  {
  }

  lemma OwnRecords(t: Shared, u: Shared, ls: map<nat, Local>, i: nat, l: Local)
    requires RecordsMatch(t, ls) && Replaces(ls, i, l)
    requires u.readsets == if l.readset != map[] then t.readsets[i := l.readset] else t.readsets
    requires u.iteratesets == if l.iters != [] then t.iteratesets[i := Trackers(l.iters)] else t.iteratesets
    ensures ReadsetAt(u, i) == l.readset && IteratesetAt(u, i) == Trackers(l.iters)
  {
    assert Trackers([]) == [];
    assert ReadsetAt(t, i) == if i in ls then ls[i].readset else map[];
    assert IteratesetAt(t, i) == if i in ls then Trackers(ls[i].iters) else [];
  }

  /** The newest earlier writer among the published executions. */
  lemma PublishedRead(t: Shared, ls: map<nat, Local>, i: nat, k: Key, j: nat)
    requires HoldsAll(t, ls) && j < i && j in ls && k in ls[j].writeset
    requires forall m :: j < m < i && m in ls ==> k !in ls[m].writeset
    ensures LatestFor(t, i, k).Some? && LatestFor(t, i, k).value.value == ls[j].writeset[k]
    ensures !LatestFor(t, i, k).value.IsEstimate()
  {
    assert Holds(t, j, k);
    forall m | j < m < i ensures m !in ItemAt(t, k) { assert !Holds(t, m, k); }
    NewestIs(ItemAt(t, k), j, i);
  }

  lemma UnpublishedRead(t: Shared, ls: map<nat, Local>, i: nat, k: Key)
    requires HoldsAll(t, ls) && forall m :: 0 <= m < i && m in ls ==> k !in ls[m].writeset
    ensures LatestFor(t, i, k).None?
  {
    forall m | 0 <= m < i ensures m !in ItemAt(t, k) { assert !Holds(t, m, k); }
    LatestBeforeIsGreatest(ItemAt(t, k), i);
  }

  /** A run after which nothing is running, the clean executions are `ls`, and the shared state holds just those. */
  ghost predicate Reached(b: Block, acts: seq<Action>, t: Shared, ls: map<nat, Local>) {
    Leads(b, acts, System(t, map[], ls)) && HoldsAll(t, ls)
  }

  lemma StartReached(b: Block)
    ensures Reached(b, [], Fresh, map[])
  {
    NothingPublished();
  }

  /** A further execution from start to end. */
  lemma RunOneMore(b: Block, acts: seq<Action>, t: Shared, ls: map<nat, Local>, i: nat, trace: seq<Local>, l: Local)
    returns (more: seq<Action>, u: Shared)
    requires Reached(b, acts, t, ls) && Executes(b, t, i, trace) && l == trace[|trace| - 1] && Replaces(ls, i, l)
    ensures u == PublishedState(t, i, 0, l) && Reached(b, more, u, ls[i := l])
  {
    more := SoloRun(b, acts, System(t, map[], ls), i, trace);
    u := PublishedState(t, i, 0, l);
    PublishMore(t, ls, i, l);
  }
}

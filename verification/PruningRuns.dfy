/** What the pruning manager guarantees over whole runs of deliveries, crashes and reloads. */
module PruningRuns {
  import opened Bytes
  import opened Words
  import opened Pruning

  /** `Recover` is a crash followed by the start-up sequence: a new manager, its options, the reload. */
  datatype Event =
    | Deliver(height: int64)
    | Configure(opts: Options)
    | Restart
    | Reload
    | Recover(opts: Options)

  function Fresh(stored: Bytes): State {
    State(INITIAL_OPTIONS, [0], stored)
  }

  const NEW := Fresh([])

  function Do(s: State, interval: uint64, e: Event): State {
    match e
    case Deliver(height) => Handled(s, interval, height)
    case Configure(opts) => s.(opts := opts)
    case Restart => Fresh(s.stored)
    case Reload => Reloaded(s)
    case Recover(opts) => Reloaded(Fresh(s.stored).(opts := opts))
  }

  function After(s: State, interval: uint64, es: seq<Event>): State {
    if es == [] then s else Do(After(s, interval, es[..|es| - 1]), interval, es[|es| - 1])
  }

  function Delivered(es: seq<Event>): set<int> {
    set i | 0 <= i < |es| && es[i].Deliver? :: es[i].height
  }

  // ---------- 64-bit arithmetic ----------

  /** In an ascending list the next height equals the wrapped sum only when nothing wrapped. */
  lemma PlusExact(x: int64, y: int64, interval: uint64)
    requires 0 <= x <= y && interval > 0
    ensures y == Plus(x, interval) <==> y == x + interval
  {
    assert Int64(interval) == if interval < TWO_63 then interval else interval - TWO_64;
    var z := x + Int64(interval);
    assert Int64(z) == if z < TWO_63 then z else z - TWO_64;
  }

  lemma PlusAtMost(x: int64, interval: uint64)
    requires 0 <= x && interval > 0
    ensures Int64(Plus(x, interval) - 1) <= x + interval - 1
  {
    assert Int64(interval) == if interval < TWO_63 then interval else interval - TWO_64;
    var z := x + Int64(interval);
    var w := if z < TWO_63 then z else z - TWO_64;
    assert Int64(z) == w;
    assert Int64(w - 1) == if w == -TWO_63 then TWO_63 - 1 else w - 1;
  }

  lemma MultipleGap(p: int, m: int, interval: int)
    requires interval > 0 && p % interval == 0 && m % interval == 0 && p < m
    ensures p + interval <= m && (p + interval) % interval == 0
  {
    assert p == p / interval * interval && m == m / interval * interval;
    assert p / interval + 1 <= m / interval;
    assert (p / interval + 1) * interval <= m / interval * interval;
    assert (p / interval + 1) * interval == p + interval;
    MultipleOf(p / interval + 1, interval);
  }

  lemma MultipleOf(k: int, interval: int)
    requires interval > 0
    ensures k * interval % interval == 0
  {
    var d, r := k - k * interval / interval, k * interval % interval;
    assert d * interval == r;
    assert d >= 1 ==> d * interval >= interval;
    assert d <= -1 ==> d * interval <= -interval;
  }

  // ---------- safety ----------

  /** Every positive multiple of the interval up to p was delivered. */
  ghost predicate Complete(p: int, interval: int, done: set<int>)
    requires interval > 0
  {
    p % interval == 0 && forall m :: 0 < m <= p && m % interval == 0 ==> m in done
  }

  /** The list is ascending, holds only zero and delivered heights, and holds a height up to which every
      snapshot is complete. */
  ghost predicate Backed(hs: seq<int64>, interval: int, done: set<int>)
    requires interval > 0
  {
    && Ascending(hs)
    && (forall i :: 0 <= i < |hs| ==> hs[i] == 0 || (hs[i] > 0 && hs[i] in done))
    && exists i :: 0 <= i < |hs| && Complete(hs[i], interval, done)
  }

  lemma CompleteNext(p: int, interval: int, done: set<int>)
    requires interval > 0 && Complete(p, interval, done) && p + interval in done
    ensures Complete(p + interval, interval, done)
  {
    MultipleGap(p, p + interval, interval) by { MultipleStep(p, interval); }
    forall m | p < m <= p + interval && m % interval == 0 ensures m in done {
      MultipleGap(p, m, interval);
    }
  }

  lemma MultipleStep(p: int, interval: int)
    requires interval > 0 && p % interval == 0
    ensures (p + interval) % interval == 0
  {
    assert p + interval == (p / interval + 1) * interval;
    MultipleOf(p / interval + 1, interval);
  }

  lemma {:induction false} TrimBacked(hs: seq<int64>, interval: uint64, done: set<int>)
    requires interval > 0 && Backed(hs, interval, done)
    ensures Backed(Trim(hs, interval), interval, done)
  {
    if |hs| >= 2 && hs[1] == Plus(hs[0], interval) {
      PlusExact(hs[0], hs[1], interval);
      var i :| 0 <= i < |hs| && Complete(hs[i], interval, done);
      if i == 0 {
        CompleteNext(hs[0], interval, done);
        assert Complete(hs[1..][0], interval, done);
      } else {
        assert hs[1..][i - 1] == hs[i];
      }
      TrimBacked(hs[1..], interval, done);
    }
  }

  lemma SortBacked(hs: seq<int64>, interval: uint64, done: set<int>, height: int64)
    requires interval > 0 && Backed(hs, interval, done) && height > 0 && height in done
    ensures Backed(SortHeights(hs + [height]), interval, done)
  {
    SortHeightsMembers(hs + [height]);
    var t := SortHeights(hs + [height]);
    forall i | 0 <= i < |t| ensures t[i] == 0 || (t[i] > 0 && t[i] in done) {
      assert t[i] in hs + [height];
    }
    var i :| 0 <= i < |hs| && Complete(hs[i], interval, done);
    assert (hs + [height])[i] == hs[i] && hs[i] in t;
    var j :| 0 <= j < |t| && t[j] == hs[i];
  }

  lemma BackedMore(hs: seq<int64>, interval: uint64, done: set<int>, more: set<int>)
    requires interval > 0 && Backed(hs, interval, done) && done <= more
    ensures Backed(hs, interval, more)
  {
    var i :| 0 <= i < |hs| && Complete(hs[i], interval, done);
    assert Complete(hs[i], interval, more);
  }

  /** The list in memory and the one on disk are both backed by completed snapshots. */
  ghost predicate Sound(s: State, interval: int, done: set<int>)
    requires interval > 0
  {
    && Backed(s.heights, interval, done)
    && DecodeHeights(s.stored).Heights?
    && (s.stored == [] || Backed(DecodeHeights(s.stored).heights, interval, done))
  }

  lemma HandledSound(s: State, interval: uint64, done: set<int>, height: int64)
    requires interval > 0 && Sound(s, interval, done) && height in done
    ensures Sound(Handled(s, interval, height), interval, done)
  {
    if s.opts.strategy != Nothing && height > 0 {
      SortBacked(s.heights, interval, done, height);
      TrimBacked(SortHeights(s.heights + [height]), interval, done);
      var hs := Trim(SortHeights(s.heights + [height]), interval);
      HeightsRoundTrip(hs);
      NoNegative(hs);
    }
  }

  lemma FreshBacked(interval: uint64, done: set<int>)
    requires interval > 0
    ensures Backed([0], interval, done)
  {
    assert Complete([0][0], interval, done);
  }

  lemma {:induction false} RunSound(interval: uint64, es: seq<Event>)
    requires interval > 0
    ensures Sound(After(NEW, interval, es), interval, Delivered(es))
    decreases |es|
  {
    FreshBacked(interval, Delivered(es));
    if es != [] {
      var before, e := es[..|es| - 1], es[|es| - 1];
      RunSound(interval, before);
      StepSound(After(NEW, interval, before), interval, Delivered(before), Delivered(es), e);
    }
  }

  lemma StepSound(s: State, interval: uint64, done: set<int>, more: set<int>, e: Event)
    requires interval > 0 && Sound(s, interval, done) && done <= more
    requires e.Deliver? ==> e.height in more
    ensures Sound(Do(s, interval, e), interval, more)
  {
    FreshBacked(interval, more);
    BackedMore(s.heights, interval, done, more);
    if s.stored != [] { BackedMore(DecodeHeights(s.stored).heights, interval, done, more); }
    if e.Deliver? { HandledSound(s, interval, more, e.height); }
  }

  /** Safety over every run: no matter which heights were delivered, in which order and how often, and with
      any crashes, reloads and option changes in between, the pruning height stays below every snapshot
      height that is not yet complete. */
  lemma PruningIsSafe(interval: uint64, es: seq<Event>, height: int64, pending: int)
    requires interval > 0 && pending > 0 && pending % interval == 0 && pending !in Delivered(es)
    ensures PruningHeight(After(NEW, interval, es), interval, height) < pending
  {
    RunSound(interval, es);
    var s, done := After(NEW, interval, es), Delivered(es);
    var i :| 0 <= i < |s.heights| && Complete(s.heights[i], interval, done);
    MultipleGap(s.heights[i], pending, interval);
    PlusAtMost(s.heights[0], interval);
  }

  /** A positive pruning height keeps the recent heights exactly when `keepRecent` fits a signed word. */
  lemma KeepsRecentExactly(s: State, interval: uint64, height: int64)
    ensures PruningHeight(s, interval, height) > 0 ==>
              (PruningHeight(s, interval, height) <= height - 1 - s.opts.keepRecent <==> s.opts.keepRecent < TWO_63)
  {
    AtMostRecent(s, interval, height);
    RecentExact(height, s.opts.keepRecent);
  }

  lemma AtMostRecent(s: State, interval: uint64, height: int64)
    ensures PruningHeight(s, interval, height) > 0 ==>
              && PruningHeight(s, interval, height) <= Recent(height, s.opts.keepRecent)
              && height > Int64(s.opts.keepRecent)
  {
  }

  lemma RecentExact(height: int64, keepRecent: uint64)
    ensures keepRecent < TWO_63 ==> Int64(keepRecent) == keepRecent
    ensures keepRecent < TWO_63 && height > keepRecent ==> Recent(height, keepRecent) == height - 1 - keepRecent
  {
    if keepRecent < TWO_63 && height > keepRecent {
      assert Int64(keepRecent) == keepRecent;
      assert Int64(height - 1) == height - 1;
      assert Int64(height - 1 - keepRecent) == height - 1 - keepRecent;
    }
  }

  /** Without snapshots every due height prunes all but the recent heights, whatever the list holds. */
  lemma NoSnapshotsPrunesAll(s: State, height: int64)
    requires s.opts.interval < TWO_63 && s.opts.keepRecent < TWO_63
    ensures PruningHeight(s, 0, height)
         == if s.opts.strategy == Nothing || s.opts.interval == 0 || height % s.opts.interval != 0
               || height <= s.opts.keepRecent then 0
            else height - 1 - s.opts.keepRecent
  {
    RecentExact(height, s.opts.keepRecent);
    SmallInterval(s.opts.interval);
  }

  /** With snapshots but none taken yet nothing is pruned. */
  lemma NoneTakenPrunesNothing(s: State, interval: uint64, height: int64)
    requires interval > 0 && s.heights == []
    ensures PruningHeight(s, interval, height) == 0
  {
  }

  /** The strategy Nothing takes no notice of deliveries and reloads and never prunes. */
  lemma {:induction false} NothingIdles(s: State, interval: uint64, es: seq<Event>, height: int64)
    requires s.opts.strategy == Nothing && forall i :: 0 <= i < |es| ==> es[i].Deliver? || es[i].Reload?
    ensures After(s, interval, es) == s && PruningHeight(s, interval, height) == 0
  {
    if es != [] { NothingIdles(s, interval, es[..|es| - 1], height); }
  }

  /** With `keepRecent` at 2^64-1 the current height itself may be pruned. */
  lemma KeepRecentOverflows()
    ensures PruningHeight(State(Options(TWO_64 - 1, 1, Custom), [0], []), 0, 5) == 5
  {
    assert Int64(TWO_64 - 1) == -1;
    assert Recent(5, TWO_64 - 1) == 5;
    assert Int64(1) == 1 && 5 % 1 == 0;
  }

  // ---------- crashes are invisible ----------

  ghost predicate NonNegative(hs: seq<int64>) {
    forall i :: 0 <= i < |hs| ==> hs[i] >= 0
  }

  /** What is on disk is what is in memory; before the first write both are the initial list. */
  ghost predicate Saved(s: State) {
    && NonNegative(s.heights)
    && (if s.stored == [] then s.heights == [0] else s.heights != [] && s.stored == EncodeHeights(s.heights))
  }

  lemma RecoverIsInvisible(s: State, interval: uint64, opts: Options)
    requires Saved(s) && opts.strategy != Nothing
    ensures Do(s, interval, Recover(opts)) == s.(opts := opts)
  {
    HeightsRoundTrip(s.heights);
    NoNegative(s.heights);
  }

  lemma HandledSaved(s: State, interval: uint64, height: int64)
    requires Saved(s)
    ensures Saved(Handled(s, interval, height))
  {
    if s.opts.strategy != Nothing && height > 0 {
      SortNonNegative(s.heights, height);
      TrimNonNegative(SortHeights(s.heights + [height]), interval);
    }
  }

  lemma SortNonNegative(hs: seq<int64>, height: int64)
    requires NonNegative(hs) && height >= 0
    ensures NonNegative(SortHeights(hs + [height])) && SortHeights(hs + [height]) != []
  {
    var t := SortHeights(hs + [height]);
    SortHeightsMembers(hs + [height]);
    forall i | 0 <= i < |t| ensures t[i] >= 0 {
      assert t[i] in hs + [height];
    }
  }

  lemma {:induction false} TrimNonNegative(hs: seq<int64>, interval: uint64)
    requires hs != [] && NonNegative(hs)
    ensures Trim(hs, interval) != [] && NonNegative(Trim(hs, interval))
  {
    if |hs| >= 2 && hs[1] == Plus(hs[0], interval) { TrimNonNegative(hs[1..], interval); }
  }

  // ---------- the list collapses ----------

  ghost predicate Strict(hs: seq<int64>) {
    forall i, j :: 0 <= i < j < |hs| ==> hs[i] < hs[j]
  }

  /** The list is one completed height followed by exactly the delivered heights above it. */
  ghost predicate Pending(hs: seq<int64>, interval: int, done: set<int>)
    requires interval > 0
  {
    && hs != [] && Strict(hs) && hs[0] >= 0
    && Complete(hs[0], interval, done)
    && forall x: int :: x in hs <==> x == hs[0] || (x in done && x > hs[0])
  }

  /** Moreover the next snapshot is the one being waited for. */
  ghost predicate Waiting(hs: seq<int64>, interval: int, done: set<int>)
    requires interval > 0
  {
    Pending(hs, interval, done) && hs[0] + interval !in done
  }

  ghost predicate Multiples(done: set<int>, interval: int)
    requires interval > 0
  {
    forall m :: m in done ==> 0 < m < TWO_63 && m % interval == 0
  }

  lemma {:induction false} TrimWaits(hs: seq<int64>, interval: uint64, done: set<int>)
    requires interval > 0 && Multiples(done, interval) && Pending(hs, interval, done)
    ensures Waiting(Trim(hs, interval), interval, done)
  {
    if |hs| >= 2 {
      PlusExact(hs[0], hs[1], interval);
      assert hs[1] in hs;
      if hs[1] == hs[0] + interval {
        CompleteNext(hs[0], interval, done);
        PendingTail(hs, interval, done);
        TrimWaits(hs[1..], interval, done);
      } else {
        NotYet(hs, interval, done);
      }
    }
  }

  lemma PendingTail(hs: seq<int64>, interval: uint64, done: set<int>)
    requires interval > 0 && Pending(hs, interval, done) && |hs| >= 2 && Complete(hs[1], interval, done)
    ensures Pending(hs[1..], interval, done)
  {
    var t := hs[1..];
    forall x: int ensures x in t <==> x == t[0] || (x in done && x > t[0]) {
      assert x in hs <==> x == hs[0] || x in t;
      if x in t { var i :| 0 <= i < |t| && t[i] == x; assert i > 0 ==> t[0] < t[i]; }
    }
  }

  lemma NotYet(hs: seq<int64>, interval: uint64, done: set<int>)
    requires interval > 0 && Multiples(done, interval) && Pending(hs, interval, done)
    requires |hs| >= 2 && hs[1] != hs[0] + interval
    ensures hs[0] + interval !in done
  {
    if hs[0] + interval in done {
      var i :| 0 <= i < |hs| && hs[i] == hs[0] + interval;
      assert hs[1] in hs;
      MultipleGap(hs[0], hs[1], interval);
      assert false;
    }
  }

  lemma SortPends(hs: seq<int64>, interval: uint64, done: set<int>, height: int64)
    requires interval > 0 && Waiting(hs, interval, done) && height > 0 && height % interval == 0 && height !in done
    ensures Pending(SortHeights(hs + [height]), interval, done + {height})
  {
    var t, more := SortHeights(hs + [height]), done + {height};
    SortHeightsSorts(hs + [height]);
    SortHeightsMembers(hs + [height]);
    assert height > hs[0] && height !in hs;
    StrictFromCounts(hs, height);
    assert hs[0] in t && t[0] in hs + [height];
    assert t[0] == hs[0];
  }

  lemma StrictFromCounts(hs: seq<int64>, height: int64)
    requires Strict(hs) && height !in hs
    ensures Strict(SortHeights(hs + [height]))
  {
    var t := SortHeights(hs + [height]);
    SortHeightsSorts(hs + [height]);
    forall i, j | 0 <= i < j < |t| ensures t[i] < t[j] {
      if t[i] == t[j] {
        CountTwice(t, i, j);
        Once(hs, height, t[i]);
        assert false;
      }
    }
  }

  lemma {:induction false} Once(hs: seq<int64>, height: int64, x: int64)
    requires Strict(hs) && height !in hs
    ensures multiset(hs + [height])[x] <= 1
  {
    StrictOnce(hs, x);
    assert x == height ==> x !in multiset(hs);
  }

  lemma {:induction false} StrictOnce(hs: seq<int64>, x: int64)
    requires Strict(hs)
    ensures multiset(hs)[x] <= 1
  {
    if hs != [] {
      StrictOnce(hs[1..], x);
      assert hs == [hs[0]] + hs[1..];
      assert x == hs[0] ==> x !in hs[1..];
      assert x !in hs[1..] ==> x !in multiset(hs[1..]);
    }
  }

  /** A delivery, or a recovery or change of options that keeps some pruning strategy. */
  predicate Steady(e: Event) {
    e.Deliver? || ((e.Configure? || e.Recover?) && e.opts.strategy != Nothing)
  }

  /** Steady events that deliver no height twice. */
  ghost predicate Orderly(es: seq<Event>) {
    && (forall i :: 0 <= i < |es| ==> Steady(es[i]))
    && (forall i, j :: 0 <= i < j < |es| && es[i].Deliver? && es[j].Deliver? ==> es[i].height != es[j].height)
  }

  /** Whatever the order of the deliveries, the list is determined by their set. */
  lemma {:induction false} OrderlyWaits(interval: uint64, opts: Options, es: seq<Event>)
    requires interval > 0 && opts.strategy != Nothing && Orderly(es) && Multiples(Delivered(es), interval)
    ensures After(NEW, interval, [Configure(opts)] + es).opts.strategy != Nothing
    ensures Saved(After(NEW, interval, [Configure(opts)] + es))
    ensures Waiting(After(NEW, interval, [Configure(opts)] + es).heights, interval, Delivered(es))
    decreases |es|
  {
    var all := [Configure(opts)] + es;
    if es == [] {
      assert all == [Configure(opts)];
      ConfiguredWaits(interval, opts);
    } else {
      hide Do, Saved, Waiting, Delivered, Multiples, Orderly;
      OrderlyBefore(interval, es);
      var before, e := es[..|es| - 1], es[|es| - 1];
      assert all[..|all| - 1] == [Configure(opts)] + before && all[|all| - 1] == e;
      DeliveredStep(es);
      OrderlyWaits(interval, opts, before);
      OrderlyStep(After(NEW, interval, [Configure(opts)] + before), interval, Delivered(before), Delivered(es), e);
    }
  }

  lemma OrderlyBefore(interval: uint64, es: seq<Event>)
    requires interval > 0 && es != [] && Orderly(es) && Multiples(Delivered(es), interval)
    ensures var before, e := es[..|es| - 1], es[|es| - 1];
            && Orderly(before) && Multiples(Delivered(before), interval) && Steady(e)
            && (e.Deliver? ==> e.height !in Delivered(before))
  {
    DeliveredStep(es);
  }

  lemma ConfiguredWaits(interval: uint64, opts: Options)
    requires interval > 0 && opts.strategy != Nothing
    ensures var s := After(NEW, interval, [Configure(opts)]);
            s.opts.strategy != Nothing && Saved(s) && Waiting(s.heights, interval, Delivered([]))
  {
    assert [Configure(opts)][..0] == [];
    assert After(NEW, interval, []) == NEW;
    assert Complete([0][0], interval, Delivered([]));
  }

  lemma DeliveredStep(es: seq<Event>)
    requires es != []
    ensures Delivered(es) == Delivered(es[..|es| - 1]) + (if es[|es| - 1].Deliver? then {es[|es| - 1].height} else {})
  {
  }

  lemma OrderlyStep(s: State, interval: uint64, done: set<int>, more: set<int>, e: Event)
    requires interval > 0 && s.opts.strategy != Nothing && Saved(s) && Waiting(s.heights, interval, done)
    requires Multiples(more, interval)
    requires Steady(e) && if e.Deliver? then e.height !in done && more == done + {e.height} else more == done
    ensures Do(s, interval, e).opts.strategy != Nothing && Saved(Do(s, interval, e))
    ensures Waiting(Do(s, interval, e).heights, interval, more)
  {
    match e
    case Deliver(height) =>
      HandledSaved(s, interval, height);
      SortPends(s.heights, interval, done, height);
      TrimWaits(SortHeights(s.heights + [height]), interval, more);
    case Configure(opts) =>
    case Recover(opts) => RecoverIsInvisible(s, interval, opts);
  }

  /** The first n multiples, each delivered once, in any order and with any crash recoveries in between. */
  lemma Collapses(interval: uint64, opts: Options, es: seq<Event>, n: nat)
    requires interval > 0 && opts.strategy != Nothing && Orderly(es)
    requires forall m: int :: m in Delivered(es) <==> 0 < m <= n * interval && m % interval == 0
    requires n * interval < TWO_63
    ensures After(NEW, interval, [Configure(opts)] + es).heights == [n * interval]
  {
    OrderlyWaits(interval, opts, es);
    var hs, done := After(NEW, interval, [Configure(opts)] + es).heights, Delivered(es);
    MultipleOf(n, interval);
    LastMultiple(hs[0], interval, done, n * interval);
    SecondIsMember(hs);
  }

  /** Then, at every height that is due, pruning reaches the last height before the next snapshot or the last one
      outside the recent heights, whichever is lower, and at no other height it prunes anything. */
  lemma PrunesUpToNext(interval: uint64, opts: Options, es: seq<Event>, n: nat, height: int64)
    requires interval > 0 && opts.strategy != Nothing && Orderly(es)
    requires forall m: int :: m in Delivered(es) <==> 0 < m <= n * interval && m % interval == 0
    requires n * interval + interval < TWO_63
    ensures var s := After(NEW, interval, [Configure(opts)] + es);
            s.opts.interval < TWO_63 && s.opts.keepRecent < TWO_63 ==>
              PruningHeight(s, interval, height) ==
              if s.opts.interval == 0 || height % s.opts.interval != 0 || height <= s.opts.keepRecent then 0
              else Least(height - 1 - s.opts.keepRecent, n * interval + interval - 1)
  {
    OrderlyWaits(interval, opts, es);
    Collapses(interval, opts, es, n);
    var s := After(NEW, interval, [Configure(opts)] + es);
    RecentExact(height, s.opts.keepRecent);
    SmallInterval(s.opts.interval);
    SmallPlus(n * interval, interval);
    DueHeight(s, interval, height, n * interval);
  }

  function Least(a: int, b: int): int {
    if a < b then a else b
  }

  lemma SmallInterval(interval: uint64)
    ensures interval < TWO_63 ==> Int64(interval) == interval
  {
  }

  lemma SmallPlus(x: int64, interval: uint64)
    requires 0 <= x && 0 < interval && x + interval < TWO_63
    ensures Int64(Plus(x, interval) - 1) == x + interval - 1
  {
    assert Int64(interval) == interval;
    assert Int64(x + interval) == x + interval;
  }

  lemma DueHeight(s: State, interval: uint64, height: int64, head: int64)
    requires s.heights != [] && s.heights[0] == head && s.opts.strategy != Nothing && interval > 0
    requires Int64(Plus(head, interval) - 1) == head + interval - 1
    requires s.opts.interval < TWO_63 ==> Int64(s.opts.interval) == s.opts.interval
    requires s.opts.keepRecent < TWO_63 ==> Int64(s.opts.keepRecent) == s.opts.keepRecent
    requires s.opts.keepRecent < TWO_63 && height > s.opts.keepRecent ==>
               Recent(height, s.opts.keepRecent) == height - 1 - s.opts.keepRecent
    ensures s.opts.interval < TWO_63 && s.opts.keepRecent < TWO_63 ==>
              PruningHeight(s, interval, height) ==
              if s.opts.interval == 0 || height % s.opts.interval != 0 || height <= s.opts.keepRecent then 0
              else Least(height - 1 - s.opts.keepRecent, head + interval - 1)
  {
  }

  lemma SecondIsMember(hs: seq<int64>)
    requires Strict(hs)
    ensures |hs| > 1 ==> hs[1] in hs && hs[1] > hs[0]
  {
  }

  lemma LastMultiple(p: int64, interval: uint64, done: set<int>, last: int)
    requires interval > 0 && last >= 0 && last % interval == 0
    requires Complete(p, interval, done) && p >= 0 && p + interval !in done
    requires forall m: int :: m in done <==> 0 < m <= last && m % interval == 0
    ensures p == last
  {
    assert p in done ==> p <= last;
    if p < last { MultipleGap(p, last, interval); }
  }

  // ---------- repeated deliveries ----------

  /** The height x is in the list at least twice. */
  ghost predicate Doubled(hs: seq<int64>, x: int64) {
    Ascending(hs) && multiset(hs)[x] >= 2
  }

  lemma {:induction false} TrimDoubled(hs: seq<int64>, interval: uint64, x: int64)
    requires interval > 0 && NonNegative(hs) && Doubled(hs, x)
    ensures Doubled(Trim(hs, interval), x)
  {
    if |hs| >= 2 && hs[1] == Plus(hs[0], interval) {
      PlusExact(hs[0], hs[1], interval);
      assert hs == [hs[0]] + hs[1..];
      assert hs[0] !in hs[1..];
      assert hs[0] !in multiset(hs[1..]);
      TrimDoubled(hs[1..], interval, x);
    }
  }

  lemma DoubledStep(s: State, interval: uint64, x: int64, e: Event)
    requires interval > 0 && Saved(s) && Doubled(s.heights, x) && Steady(e)
    ensures Saved(Do(s, interval, e)) && Doubled(Do(s, interval, e).heights, x)
  {
    match e
    case Deliver(height) =>
      HandledSaved(s, interval, height);
      if s.opts.strategy != Nothing && height > 0 {
        SortNonNegative(s.heights, height);
        SortHeightsSorts(s.heights + [height]);
        TrimDoubled(SortHeights(s.heights + [height]), interval, x);
      }
    case Configure(opts) =>
    case Recover(opts) => RecoverIsInvisible(s, interval, opts);
  }

  lemma {:induction false} DoubledForever(s: State, interval: uint64, x: int64, es: seq<Event>)
    requires interval > 0 && Saved(s) && Doubled(s.heights, x) && forall i :: 0 <= i < |es| ==> Steady(es[i])
    ensures Saved(After(s, interval, es)) && Doubled(After(s, interval, es).heights, x)
    decreases |es|
  {
    if es != [] {
      DoubledForever(s, interval, x, es[..|es| - 1]);
      DoubledStep(After(s, interval, es[..|es| - 1]), interval, x, es[|es| - 1]);
    }
  }

  /** A height that is in the list twice stops pruning for good: no later delivery raises the pruning height
      past the next snapshot after it. */
  lemma RepeatStalls(s: State, interval: uint64, x: int64, es: seq<Event>, height: int64)
    requires interval > 0 && Saved(s) && Doubled(s.heights, x) && forall i :: 0 <= i < |es| ==> Steady(es[i])
    ensures PruningHeight(After(s, interval, es), interval, height) < x + interval
  {
    DoubledForever(s, interval, x, es);
    var hs := After(s, interval, es).heights;
    assert x in multiset(hs);
    var i :| 0 <= i < |hs| && hs[i] == x;
    PlusAtMost(hs[0], interval);
  }

  /** Delivering a height that is still in the list once more puts it there twice. */
  lemma RepeatDoubles(s: State, interval: uint64, x: int64)
    requires interval > 0 && s.opts.strategy != Nothing && Ascending(s.heights) && NonNegative(s.heights)
    requires x > 0 && x in s.heights
    ensures Doubled(Do(s, interval, Deliver(x)).heights, x)
  {
    assert x in multiset(s.heights);
    SortHeightsSorts(s.heights + [x]);
    SortNonNegative(s.heights, x);
    TrimDoubled(SortHeights(s.heights + [x]), interval, x);
  }

  // ---------- which deliveries the list can take ----------

  lemma {:induction false} SortInFront(hs: seq<int64>, h: int64)
    requires Ascending(hs) && (hs == [] || h <= hs[0])
    ensures SortHeights(hs + [h]) == [h] + hs
  {
    if hs == [] {
      assert hs + [h] == [h] && [h] + hs == [h];
      assert SortHeights([h]) == Insert(h, SortHeights([]));
    } else {
      assert (hs + [h])[1..] == hs[1..] + [h] && (hs + [h])[0] == hs[0];
      SortInFront(hs[1..], h);
      InsertInFront(hs[1..], h, hs[0]);
      assert [h] + ([hs[0]] + hs[1..]) == [h] + hs;
    }
  }

  lemma InsertInFront(rest: seq<int64>, h: int64, x: int64)
    requires h <= x && (rest == [] || x <= rest[0])
    ensures Insert(x, [h] + rest) == [h] + ([x] + rest)
  {
    assert ([h] + rest)[1..] == rest;
    assert Insert(x, rest) == [x] + rest;
    if x == h { assert [x] + ([h] + rest) == [h] + ([x] + rest); }
  }

  lemma TrimSettled(hs: seq<int64>, interval: uint64, done: set<int>)
    requires interval > 0 && Waiting(hs, interval, done)
    ensures Trim(hs, interval) == hs
  {
    if |hs| >= 2 {
      assert hs[1] in hs;
      PlusExact(hs[0], hs[1], interval);
    }
  }

  lemma DoubledNotWaiting(hs: seq<int64>, interval: uint64, done: set<int>, h: int64)
    requires interval > 0 && Strict(hs) && NonNegative(hs) && h in hs
    ensures !Waiting(Trim(SortHeights(hs + [h]), interval), interval, done)
  {
    SortHeightsSorts(hs + [h]);
    SortNonNegative(hs, h);
    assert h in multiset(hs);
    var t := Trim(SortHeights(hs + [h]), interval);
    TrimDoubled(SortHeights(hs + [h]), interval, h);
    if Strict(t) { StrictOnce(t, h); }
  }

  /** A height below the head comes to stand in front of it. */
  lemma BelowHead(hs: seq<int64>, interval: uint64, done: set<int>, h: int64)
    requires interval > 0 && Waiting(hs, interval, done) && 0 < h < hs[0] && h % interval == 0
    ensures Waiting(Trim(SortHeights(hs + [h]), interval), interval, done + {h}) <==> h == hs[0] - interval
    ensures h != hs[0] - interval ==> Trim(SortHeights(hs + [h]), interval) == [h] + hs
  {
    SortInFront(hs, h);
    MultipleGap(h, hs[0], interval);
    PlusExact(h, hs[0], interval);
    assert ([h] + hs)[1..] == hs && done + {h} == done && h + interval in done;
    TrimSettled(hs, interval, done);
  }

  /** Exactly which delivery of a multiple keeps the list in order: one never delivered before, or the one right below
      the head. Any other repeat puts the list out of step with what was delivered. */
  lemma DeliveryExact(hs: seq<int64>, interval: uint64, done: set<int>, h: int64)
    requires interval > 0 && Waiting(hs, interval, done) && Multiples(done, interval) && h > 0 && h % interval == 0
    ensures Waiting(Trim(SortHeights(hs + [h]), interval), interval, done + {h}) <==>
            h == hs[0] - interval || (h > hs[0] && h !in hs)
  {
    if h < hs[0] {
      BelowHead(hs, interval, done, h);
    } else if h in hs {
      DoubledNotWaiting(hs, interval, done + {h}, h);
    } else {
      SortPends(hs, interval, done, h);
      TrimWaits(SortHeights(hs + [h]), interval, done + {h});
    }
  }

  /** With snapshots up to 30 complete, delivering 10 again sets pruning back; delivering 20 again does not. */
  lemma RepeatBelowHead(s: State)
    requires s.opts == Options(2, 10, Custom) && s.heights == [30]
    ensures Do(s, 10, Deliver(10)).heights == [10, 30] && Do(s, 10, Deliver(20)).heights == [30]
    ensures PruningHeight(s, 10, 100) == 39 && PruningHeight(Do(s, 10, Deliver(10)), 10, 100) == 19
  {
    SteppedBack();
    PrunedAt(s, 30);
    PrunedAt(Do(s, 10, Deliver(10)), 10);
  }

  lemma SteppedBack()
    ensures Trim(SortHeights([30] + [10]), 10) == [10, 30] && Trim(SortHeights([30] + [20]), 10) == [30]
  {
    SortInFront([30], 10);
    SortInFront([30], 20);
    PlusExact(10, 30, 10);
    PlusExact(20, 30, 10);
    assert [20, 30][1..] == [30] && Trim([30], 10) == [30];
  }

  lemma PrunedAt(s: State, head: int64)
    requires s.opts == Options(2, 10, Custom) && s.heights != [] && s.heights[0] == head && 0 <= head <= 30
    ensures PruningHeight(s, 10, 100) == head + 9
  {
    RecentExact(100, 2);
    SmallInterval(10);
    SmallPlus(head, 10);
    DueHeight(s, 10, 100, head);
  }
}

/** When a call aborts the execution and which earlier transaction the abort names. */
module Aborts {
  import opened Bytes
  import opened VersionedItem
  import opened MergeIterator
  import opened MultiVersion
  import opened Execution
  import opened Simulation

  // ----- Reading a key -----

  /** The execution knows no value of k yet: it neither wrote nor read it. */
  predicate Unknown(ws: WriteSet, rs: ReadSet, k: Key) {
    k !in ws && (k !in rs || rs[k] == [])
  }

  /** w is the newest writer of k before i and left an estimate. */
  ghost predicate EstimatedBy(s: Shared, i: nat, k: Key, w: nat) {
    NewestWriter(s, i, k, w) && ItemAt(s, k)[w].IsEstimate()
  }

  lemma SourceEstimated(s: Shared, parent: KVMap, i: nat, k: Key, w: nat)
    requires Inv(s)
    ensures SharedSource(s, parent, i)(k) == Estimated(w) <==> EstimatedBy(s, i, k, w)
  {
    NewestIsLatest(s, i, k, w);
    LatestBeforeIsGreatest(ItemAt(s, k), i);
    assert WellIndexed(ItemAt(s, k));
  }

  /** A read aborts exactly on a key not known yet whose newest earlier writer left an estimate, and names that one. */
  lemma ReadAbortsExact(ws: WriteSet, rs: ReadSet, s: Shared, parent: KVMap, i: nat, k: Key, w: nat)
    requires Inv(s)
    ensures Read(ws, rs, SharedSource(s, parent, i), k) == ReadAbort(w) <==>
            Unknown(ws, rs, k) && EstimatedBy(s, i, k, w)
  {
    SourceEstimated(s, parent, i, k, w);
  }

  /** After invalidating i, a read by j aborts naming i exactly when j does not know the key and i is its newest earlier
      writer. */
  lemma InvalidatedAbortsExact(ws: WriteSet, rs: ReadSet, s: Shared, parent: KVMap, i: nat, incarnation: int, j: nat,
                               k: Key)
    requires Inv(s)
    ensures Read(ws, rs, SharedSource(InvalidateWriteset(s, i, incarnation), parent, j), k) == ReadAbort(i) <==>
            Unknown(ws, rs, k) && NewestWriter(s, j, k, i)
  {
    hide Inv, InvalidateWriteset, Read;
    var t := InvalidateWriteset(s, i, incarnation);
    InvalidateEffect(s, i, incarnation);
    ReadAbortsExact(ws, rs, t, parent, j, k, i);
    assert forall m: nat :: i < m < j ==> (Holds(t, m, k) <==> Holds(s, m, k));
  }

  /** After an estimated publication at i the same holds of the keys of its writeset. */
  lemma EstimatedAbortsExact(ws: WriteSet, rs: ReadSet, s: Shared, parent: KVMap, i: nat, incarnation: int,
                             estimated: WriteSet, j: nat, k: Key)
    requires Inv(s)
    ensures Read(ws, rs, SharedSource(SetEstimatedWriteset(s, i, incarnation, estimated), parent, j), k) == ReadAbort(i)
            <==> Unknown(ws, rs, k) && k in estimated && i < j && forall m: nat :: i < m < j ==> !Holds(s, m, k)
  {
    hide Inv, SetEstimatedWriteset, Read;
    var t := SetEstimatedWriteset(s, i, incarnation, estimated);
    SetEstimatedEffect(s, i, incarnation, estimated);
    ReadAbortsExact(ws, rs, t, parent, j, k, i);
    assert forall m: nat :: i < m < j ==> (Holds(t, m, k) <==> Holds(s, m, k));
  }

  // ----- Skipping -----

  /** What a read of a key answers, now and after any other reads of the same call. */
  function AnswerOf(ws: WriteSet, rs: ReadSet, src: Key -> Source): Key -> Source {
    (k: Key) => if k in ws then Current(ws[k]) else if k in rs && rs[k] != [] then Current(rs[k][0]) else src(k)
  }

  ghost predicate SameAnswers(a: Key -> Source, b: Key -> Source) {
    forall k: Key :: a(k) == b(k)
  }

  lemma ReadAnswer(ws: WriteSet, rs: ReadSet, src: Key -> Source, k: Key)
    ensures match Read(ws, rs, src, k)
            case ReadAbort(w) => AnswerOf(ws, rs, src)(k) == Estimated(w)
            case Value(rs', v) =>
              AnswerOf(ws, rs, src)(k) == Current(v) && SameAnswers(AnswerOf(ws, rs', src), AnswerOf(ws, rs, src))
  {
    var none: seq<Option<Bytes>> := [];
    assert forall v :: none + [v] == [v];
  }

  /** Every parent entry before c is one the first n cached keys hide. */
  ghost predicate NoneBefore(asc: bool, parent: seq<Entry>, cache: seq<Key>, n: nat, c: Key)
    requires n <= |cache|
  {
    forall p :: p in EntryKeys(parent) && Before(asc, p, c) ==> p in cache[..n]
  }

  /** The skip gets to the cached key at n: nothing of the parent comes before it, or it is looked at because the key
      before it was dropped alone. */
  ghost predicate Reached(asc: bool, parent: seq<Entry>, cache: seq<Key>, peek: bool, n: nat)
    requires n < |cache|
  {
    || NoneBefore(asc, parent, cache, n, cache[n])
    || (if n == 0 then peek
        else cache[n - 1] !in EntryKeys(parent) && NoneBefore(asc, parent, cache, n - 1, cache[n - 1]))
  }

  /** The first cached key that is not deleted is at n, is reached, and w left an estimate there. */
  ghost predicate Meets(asc: bool, parent: seq<Entry>, cache: seq<Key>, peek: bool, ans: Key -> Source, n: nat,
                        w: nat) {
    && n < |cache| && ans(cache[n]) == Estimated(w)
    && (forall j :: 0 <= j < n ==> ans(cache[j]) == Current(None))
    && Reached(asc, parent, cache, peek, n)
  }

  ghost predicate MeetsOne(asc: bool, parent: seq<Entry>, cache: seq<Key>, peek: bool, ans: Key -> Source, w: nat) {
    exists n: nat :: Meets(asc, parent, cache, peek, ans, n, w)
  }

  ghost predicate InOrder(asc: bool, parent: seq<Entry>, cache: seq<Key>) {
    Ordered(asc, EntryKeys(parent)) && Ordered(asc, cache)
  }

  lemma TailsInOrder(asc: bool, parent: seq<Entry>, cache: seq<Key>)
    requires InOrder(asc, parent, cache)
    ensures parent != [] ==> InOrder(asc, parent[1..], cache)
    ensures cache != [] ==> InOrder(asc, parent, cache[1..])
    ensures parent != [] && cache != [] ==> InOrder(asc, parent[1..], cache[1..])
  {
    if parent != [] { ConsEntries(parent); }
  }

  lemma SameMeets(asc: bool, parent: seq<Entry>, cache: seq<Key>, peek: bool, a: Key -> Source, b: Key -> Source,
                  w: nat)
    requires SameAnswers(a, b)
    ensures MeetsOne(asc, parent, cache, peek, a, w) <==> MeetsOne(asc, parent, cache, peek, b, w)
  {
    hide Reached;
    if n: nat :| Meets(asc, parent, cache, peek, a, n, w) { assert Meets(asc, parent, cache, peek, b, n, w); }
    if n: nat :| Meets(asc, parent, cache, peek, b, n, w) { assert Meets(asc, parent, cache, peek, a, n, w); }
  }

  // ----- One step of the skip -----

  /** The parent's head comes first: no cached key is reached. */
  lemma ParentFirst(asc: bool, parent: seq<Entry>, cache: seq<Key>, ans: Key -> Source, w: nat)
    requires InOrder(asc, parent, cache) && parent != [] && (cache == [] || Before(asc, parent[0].key, cache[0]))
    ensures !MeetsOne(asc, parent, cache, false, ans, w)
  {
    var p := parent[0].key;
    assert EntryKeys(parent)[0] == p;
    if n: nat :| Meets(asc, parent, cache, false, ans, n, w) {
      HeadsOrdered(asc, p, cache);
      forall m | 0 <= m < |cache| ensures !NoneBefore(asc, parent, cache, m, cache[m]) {
        assert Before(asc, p, cache[m]) && p !in cache;
        assert forall x :: x in cache[..m] ==> x in cache;
      }
    }
  }

  /** A cached key that is no deletion decides at once. */
  lemma HeadDecides(asc: bool, parent: seq<Entry>, cache: seq<Key>, peek: bool, ans: Key -> Source, w: nat)
    requires InOrder(asc, parent, cache) && cache != []
    requires parent == [] || peek || !Before(asc, parent[0].key, cache[0])
    requires ans(cache[0]) != Current(None)
    ensures MeetsOne(asc, parent, cache, peek, ans, w) <==> ans(cache[0]) == Estimated(w)
  {
    if n: nat :| Meets(asc, parent, cache, peek, ans, n, w) { assert n == 0; }
    if ans(cache[0]) == Estimated(w) {
      if !peek { NothingBeforeHead(asc, parent, cache); }
      assert Meets(asc, parent, cache, peek, ans, 0, w);
    }
  }

  lemma NothingBeforeHead(asc: bool, parent: seq<Entry>, cache: seq<Key>)
    requires InOrder(asc, parent, cache) && cache != [] && (parent == [] || !Before(asc, parent[0].key, cache[0]))
    ensures NoneBefore(asc, parent, cache, 0, cache[0])
  {
    forall p | p in EntryKeys(parent) && Before(asc, p, cache[0]) ensures false {
      var i :| 0 <= i < |parent| && EntryKeys(parent)[i] == p;
      if i > 0 { BeforeTransitive(asc, EntryKeys(parent)[0], p, cache[0]); }
    }
  }

  /** A deleted key that is in the parent, too, takes the parent's entry with it. */
  lemma DropTie(asc: bool, parent: seq<Entry>, cache: seq<Key>, ans: Key -> Source, w: nat)
    requires InOrder(asc, parent, cache) && parent != [] && cache != [] && parent[0].key == cache[0]
    requires ans(cache[0]) == Current(None)
    ensures MeetsOne(asc, parent, cache, false, ans, w) <==> MeetsOne(asc, parent[1..], cache[1..], false, ans, w)
  {
    hide Reached;
    forall n: nat | 0 < n < |cache|
      ensures Meets(asc, parent, cache, false, ans, n, w) <==> Meets(asc, parent[1..], cache[1..], false, ans, n - 1, w)
    {
      TieReaches(asc, parent, cache, n);
      ShiftDeleted(cache, ans, n);
    }
    if n: nat :| Meets(asc, parent[1..], cache[1..], false, ans, n, w) {
      assert Meets(asc, parent, cache, false, ans, n + 1, w);
    }
  }

  lemma ShiftDeleted(cache: seq<Key>, ans: Key -> Source, n: nat)
    requires 0 < n < |cache| && ans(cache[0]) == Current(None)
    ensures (forall j :: 0 <= j < n ==> ans(cache[j]) == Current(None))
       <==> (forall j :: 0 <= j < n - 1 ==> ans(cache[1..][j]) == Current(None))
  {
    if forall j :: 0 <= j < n - 1 ==> ans(cache[1..][j]) == Current(None) {
      forall j | 0 <= j < n ensures ans(cache[j]) == Current(None) {
        if j > 0 { assert cache[1..][j - 1] == cache[j]; }
      }
    }
  }

  lemma TieReaches(asc: bool, parent: seq<Entry>, cache: seq<Key>, n: nat)
    requires InOrder(asc, parent, cache) && parent != [] && 0 < n < |cache| && parent[0].key == cache[0]
    ensures Reached(asc, parent, cache, false, n) <==> Reached(asc, parent[1..], cache[1..], false, n - 1)
  {
    ConsEntries(parent);
    TieNone(asc, parent, cache, n, cache[n]);
    assert cache[0] in EntryKeys(parent);
    if n > 1 {
      TieNone(asc, parent, cache, n - 1, cache[n - 1]);
      assert cache[n - 1] != cache[0] by { BeforeIsStrict(asc, cache[0], cache[n - 1]); }
    }
  }

  lemma TieNone(asc: bool, parent: seq<Entry>, cache: seq<Key>, n: nat, c: Key)
    requires InOrder(asc, parent, cache) && parent != [] && 0 < n <= |cache| && parent[0].key == cache[0]
    ensures NoneBefore(asc, parent, cache, n, c) <==> NoneBefore(asc, parent[1..], cache[1..], n - 1, c)
  {
    ConsEntries(parent);
    TailOrdered(asc, EntryKeys(parent), EntryKeys(parent[1..]));
    BeforeNotSelf(asc, cache[0]);
    assert cache[..n] == [cache[0]] + cache[1..][..n - 1];
    assert cache[0] !in EntryKeys(parent[1..]);
  }

  /** A deleted key that lies before the parent's entries is dropped alone, and the next key is looked at. */
  lemma DropAlone(asc: bool, parent: seq<Entry>, cache: seq<Key>, peek: bool, ans: Key -> Source, w: nat)
    requires InOrder(asc, parent, cache) && cache != [] && (parent == [] || Before(asc, cache[0], parent[0].key))
    requires ans(cache[0]) == Current(None)
    ensures MeetsOne(asc, parent, cache, peek, ans, w) <==> MeetsOne(asc, parent, cache[1..], true, ans, w)
  {
    hide Reached;
    forall n: nat | 0 < n < |cache|
      ensures Meets(asc, parent, cache, peek, ans, n, w) <==> Meets(asc, parent, cache[1..], true, ans, n - 1, w)
    {
      AloneReaches(asc, parent, cache, peek, n);
      ShiftDeleted(cache, ans, n);
    }
    if n: nat :| Meets(asc, parent, cache[1..], true, ans, n, w) {
      assert Meets(asc, parent, cache, peek, ans, n + 1, w);
    }
  }

  lemma AloneReaches(asc: bool, parent: seq<Entry>, cache: seq<Key>, peek: bool, n: nat)
    requires InOrder(asc, parent, cache) && 0 < n < |cache| && (parent == [] || Before(asc, cache[0], parent[0].key))
    ensures Reached(asc, parent, cache, peek, n) <==> Reached(asc, parent, cache[1..], true, n - 1)
  {
    if parent != [] {
      HeadsOrdered(asc, cache[0], EntryKeys(parent));
      BeforeIsStrict(asc, cache[0], parent[0].key);
    }
    NothingBeforeHead(asc, parent, cache);
    AloneNone(asc, parent, cache, n, cache[n]);
    if n > 1 { AloneNone(asc, parent, cache, n - 1, cache[n - 1]); }
  }

  lemma AloneNone(asc: bool, parent: seq<Entry>, cache: seq<Key>, n: nat, c: Key)
    requires 0 < n <= |cache| && cache[0] !in EntryKeys(parent)
    ensures NoneBefore(asc, parent, cache, n, c) <==> NoneBefore(asc, parent, cache[1..], n - 1, c)
  {
    assert cache[..n] == [cache[0]] + cache[1..][..n - 1];
  }

  /** Whether the head is looked at does not matter once it is known. */
  lemma PeekIrrelevant(asc: bool, parent: seq<Entry>, cache: seq<Key>, ans: Key -> Source, w: nat)
    requires cache == [] || ans(cache[0]).Current? || parent == []
    ensures MeetsOne(asc, parent, cache, true, ans, w) <==> MeetsOne(asc, parent, cache, false, ans, w)
  {
    hide NoneBefore;
    forall n: nat ensures Meets(asc, parent, cache, true, ans, n, w) <==> Meets(asc, parent, cache, false, ans, n, w) {
      if parent == [] && n < |cache| {
        assert NoneBefore(asc, parent, cache, n, cache[n]) by { NoParent(asc, cache, n); }
      }
    }
  }

  lemma NoParent(asc: bool, cache: seq<Key>, n: nat)
    requires n < |cache|
    ensures NoneBefore(asc, [], cache, n, cache[n])
  {
  }

  // ----- The whole skip -----

  /** What dropping deletions leaves to be met. */
  ghost predicate DropsTo(asc: bool, parent: seq<Entry>, cache: seq<Key>, ws: WriteSet, rs: ReadSet, src: Key -> Source,
                          d: Deletes, w: nat)
  {
    var ans := AnswerOf(ws, rs, src);
    match d
    case DeletesAbort(v) => MeetsOne(asc, parent, cache, true, ans, w) <==> v == w
    case DeletesAt(c, rs') =>
      && SameAnswers(AnswerOf(ws, rs', src), ans) && InOrder(asc, parent, c)
      && (c == [] || ans(c[0]).Current?) && (parent == [] && c != [] ==> ans(c[0]) != Current(None))
      && (MeetsOne(asc, parent, cache, true, ans, w) <==> MeetsOne(asc, parent, c, true, ans, w))
  }

  lemma {:induction false} DeletesDropTo(asc: bool, parent: seq<Entry>, cache: seq<Key>, until: Option<Key>,
                                         ws: WriteSet, rs: ReadSet, src: Key -> Source, w: nat)
    requires InOrder(asc, parent, cache) && until == if parent == [] then None else Some(parent[0].key)
    ensures DropsTo(asc, parent, cache, ws, rs, src, SkipDeletes(asc, cache, until, ws, rs, src), w)
    decreases |cache|
  {
    hide Read, InOrder, MeetsOne, Before;
    var ans := AnswerOf(ws, rs, src);
    if cache != [] {
      ReadAnswer(ws, rs, src, cache[0]);
      var r := Read(ws, rs, src, cache[0]);
      if r.ReadAbort? {
        HeadDecides(asc, parent, cache, true, ans, w);
      } else if r.value.None? && (until.None? || Before(asc, cache[0], until.value)) {
        DropAlone(asc, parent, cache, true, ans, w);
        TailsInOrder(asc, parent, cache);
        SameMeets(asc, parent, cache[1..], true, AnswerOf(ws, r.rs, src), ans, w);
        DeletesDropTo(asc, parent, cache[1..], until, ws, r.rs, src, w);
        var d := SkipDeletes(asc, cache[1..], until, ws, r.rs, src);
        if d.DeletesAt? { SameMeets(asc, parent, d.cache, true, AnswerOf(ws, r.rs, src), ans, w); }
      }
    }
  }

  /** A skip aborts exactly when it meets an estimate, and names its writer. */
  lemma {:induction false} SkipAbortsExact(asc: bool, parent: seq<Entry>, cache: seq<Key>, ws: WriteSet, rs: ReadSet,
                                           src: Key -> Source, w: nat)
    requires InOrder(asc, parent, cache)
    ensures SkipUntilExists(asc, parent, cache, ws, rs, src) == SkipAbort(w) <==>
            MeetsOne(asc, parent, cache, false, AnswerOf(ws, rs, src), w)
    decreases |parent| + |cache|
  {
    hide Read, InOrder, MeetsOne, Before, SkipDeletes;
    var ans := AnswerOf(ws, rs, src);
    if parent == [] {
      DeletesDropTo(asc, parent, cache, None, ws, rs, src, w);
      PeekIrrelevant(asc, parent, cache, ans, w);
      var d := SkipDeletes(asc, cache, None, ws, rs, src);
      if d.DeletesAt? { NothingMet(asc, parent, d.cache, ans, w); }
    } else if cache == [] || Before(asc, parent[0].key, cache[0]) {
      ParentFirst(asc, parent, cache, ans, w);
    } else {
      ReadAnswer(ws, rs, src, cache[0]);
      var r := Read(ws, rs, src, cache[0]);
      if r.ReadAbort? || r.value.Some? {
        HeadDecides(asc, parent, cache, false, ans, w);
      } else {
        TailsInOrder(asc, parent, cache);
        if parent[0].key == cache[0] {
          DropTie(asc, parent, cache, ans, w);
          SameMeets(asc, parent[1..], cache[1..], false, AnswerOf(ws, r.rs, src), ans, w);
          SkipAbortsExact(asc, parent[1..], cache[1..], ws, r.rs, src, w);
        } else {
          SkipsAlone(asc, parent, cache, ws, rs, src, r.rs, w);
          var d := SkipDeletes(asc, cache[1..], Some(parent[0].key), ws, r.rs, src);
          if d.DeletesAt? { SkipAbortsExact(asc, parent, d.cache, ws, d.rs, src, w); }
        }
      }
    }
  }

  lemma NothingMet(asc: bool, parent: seq<Entry>, cache: seq<Key>, ans: Key -> Source, w: nat)
    requires InOrder(asc, parent, cache) && parent == []
    requires cache == [] || (ans(cache[0]).Current? && ans(cache[0]) != Current(None))
    ensures !MeetsOne(asc, parent, cache, true, ans, w)
  {
    if cache != [] { HeadDecides(asc, parent, cache, true, ans, w); }
  }

  lemma SkipsAlone(asc: bool, parent: seq<Entry>, cache: seq<Key>, ws: WriteSet, rs: ReadSet, src: Key -> Source,
                   rs': ReadSet, w: nat)
    requires InOrder(asc, parent, cache) && parent != [] && cache != []
    requires !Before(asc, parent[0].key, cache[0]) && parent[0].key != cache[0]
    requires Read(ws, rs, src, cache[0]) == Value(rs', None)
    ensures var d, ans := SkipDeletes(asc, cache[1..], Some(parent[0].key), ws, rs', src), AnswerOf(ws, rs, src);
            if d.DeletesAbort? then MeetsOne(asc, parent, cache, false, ans, w) <==> d.writer == w
            else
              && InOrder(asc, parent, d.cache)
              && (MeetsOne(asc, parent, cache, false, ans, w) <==>
                  MeetsOne(asc, parent, d.cache, false, AnswerOf(ws, d.rs, src), w))
  {
    hide Read, InOrder, MeetsOne, Before, SkipDeletes;
    var ans, ans' := AnswerOf(ws, rs, src), AnswerOf(ws, rs', src);
    ReadAnswer(ws, rs, src, cache[0]);
    BeforeTotal(asc, parent[0].key, cache[0]);
    DropAlone(asc, parent, cache, false, ans, w);
    TailsInOrder(asc, parent, cache);
    SameMeets(asc, parent, cache[1..], true, ans', ans, w);
    DeletesDropTo(asc, parent, cache[1..], Some(parent[0].key), ws, rs', src, w);
    var d := SkipDeletes(asc, cache[1..], Some(parent[0].key), ws, rs', src);
    if d.DeletesAt? {
      PeekIrrelevant(asc, parent, d.cache, ans', w);
      SameMeets(asc, parent, d.cache, false, AnswerOf(ws, d.rs, src), ans', w);
    }
  }

  // ----- Calls -----

  /** The open iterator h, on its way to the next entry, comes at position n of its merged keys upon an estimate that w
      left: the keys before it are deleted, and no entry of the parent comes first. */
  ghost predicate BlockedAt(l: Local, h: nat, s: Shared, parent: KVMap, i: nat, n: nat, w: nat) {
    Usable(l, h) &&
    var it := l.iters[h];
    && n < |it.cache| && Unknown(l.writeset, l.readset, it.cache[n]) && EstimatedBy(s, i, it.cache[n], w)
    && (forall j :: 0 <= j < n ==>
          AnswerOf(l.writeset, l.readset, SharedSource(s, parent, i))(it.cache[j]) == Current(None))
    && Reached(it.tracker.ascending, it.parent, it.cache, false, n)
  }

  ghost predicate Blocked(l: Local, h: nat, s: Shared, parent: KVMap, i: nat, w: nat) {
    exists n: nat :: BlockedAt(l, h, s, parent, i, n, w)
  }

  lemma BlockedMeets(l: Local, h: nat, s: Shared, parent: KVMap, i: nat, w: nat)
    requires Inv(s) && Usable(l, h)
    ensures var it := l.iters[h];
            Blocked(l, h, s, parent, i, w) <==>
            MeetsOne(it.tracker.ascending, it.parent, it.cache, false,
                     AnswerOf(l.writeset, l.readset, SharedSource(s, parent, i)), w)
  {
    var it, ans := l.iters[h], AnswerOf(l.writeset, l.readset, SharedSource(s, parent, i));
    hide Inv, Reached, EstimatedBy, SharedSource;
    forall n: nat
      ensures BlockedAt(l, h, s, parent, i, n, w) <==>
              Meets(it.tracker.ascending, it.parent, it.cache, false, ans, n, w)
    {
      if n < |it.cache| { SourceEstimated(s, parent, i, it.cache[n], w); }
    }
  }

  /** Why a call aborts: it reads a key, or looks at an iterator that has to. */
  ghost predicate AbortCause(op: Op, l: Local, s: Shared, parent: KVMap, i: nat, w: nat) {
    match op
    case Get(k) => Unknown(l.writeset, l.readset, k) && EstimatedBy(s, i, k, w)
    case IsValid(h) => Blocked(l, h, s, parent, i, w)
    case GetKey(h) => Blocked(l, h, s, parent, i, w)
    case GetValue(h) => Blocked(l, h, s, parent, i, w)
    case Next(h) => Blocked(l, h, s, parent, i, w)
    case _ => false
  }

  /** A call of an execution at index i aborts for exactly these causes and names the writer of the estimate. */
  lemma AbortsExact(dom: Domain, op: Op, l: Local, items: set<Key>, s: Shared, parent: KVMap, i: nat, w: nat)
    requires LocalOk(dom, l) && Inv(s)
    ensures LocalStep(op, l, parent, items, SharedSource(s, parent, i)) == Abort(w) <==>
            AbortCause(op, l, s, parent, i, w)
  {
    hide LocalOk, Inv, SharedSource, Read, SkipUntilExists, Unknown, EstimatedBy, BlockedAt;
    var src := SharedSource(s, parent, i);
    match op
    case Get(k) => ReadAbortsExact(l.writeset, l.readset, s, parent, i, k, w);
    case IsValid(h) => LookAborts(dom, l, h, s, parent, i, w);
    case GetKey(h) => LookAborts(dom, l, h, s, parent, i, w);
    case GetValue(h) =>
      LookAborts(dom, l, h, s, parent, i, w);
      ValueAborts(l, h, src);
    case Next(h) => LookAborts(dom, l, h, s, parent, i, w);
    case _ =>
  }

  lemma LookAborts(dom: Domain, l: Local, h: nat, s: Shared, parent: KVMap, i: nat, w: nat)
    requires LocalOk(dom, l) && Inv(s)
    ensures Blocked(l, h, s, parent, i, w) <==>
            Usable(l, h) && Skipped(l, h, SharedSource(s, parent, i)) == SkipAbort(w)
  {
    if Usable(l, h) {
      var it := l.iters[h];
      assert IterOk(dom, it, l.writeset, l.readset);
      assert InOrder(it.tracker.ascending, it.parent, it.cache);
      hide LocalOk, IterOk, Inv, InOrder, MeetsOne, SkipUntilExists, SharedSource;
      SkipAbortsExact(it.tracker.ascending, it.parent, it.cache, l.writeset, l.readset, SharedSource(s, parent, i), w);
      BlockedMeets(l, h, s, parent, i, w);
    }
  }

  /** Once the skip has settled, the value is known. */
  lemma ValueAborts(l: Local, h: nat, src: Key -> Source)
    ensures h < |l.iters| && SkipFound(Skipped(l, h, src)) ==>
              EntryValue(Skipped(l, h, src), l.iters[h].tracker.ascending, l.writeset, src).Value?
  {
    if h < |l.iters| {
      var it := l.iters[h];
      SettledIsKnown(it.tracker.ascending, it.parent, it.cache, l.writeset, l.readset, src);
    }
  }

  lemma {:induction false} SettledIsKnown(asc: bool, parent: seq<Entry>, cache: seq<Key>, ws: WriteSet, rs: ReadSet,
                                          src: Key -> Source)
    ensures var s := SkipUntilExists(asc, parent, cache, ws, rs, src);
            s.SkipAt? && FromCache(asc, s.parent, s.cache) ==> Read(ws, s.rs, src, s.cache[0]).Value?
    decreases |parent| + |cache|
  {
    hide Read, SkipDeletes, Before;
    if parent == [] {
      StoppedIsKnown(asc, cache, None, ws, rs, src);
    } else if cache != [] && !Before(asc, parent[0].key, cache[0]) {
      var r := Read(ws, rs, src, cache[0]);
      if r.Value? {
        ReadAgain(ws, rs, src, cache[0]);
        if r.value.None? && parent[0].key == cache[0] {
          SettledIsKnown(asc, parent[1..], cache[1..], ws, r.rs, src);
        } else if r.value.None? {
          var d := SkipDeletes(asc, cache[1..], Some(parent[0].key), ws, r.rs, src);
          if d.DeletesAt? { SettledIsKnown(asc, parent, d.cache, ws, d.rs, src); }
        }
      }
    }
  }

  lemma {:induction false} StoppedIsKnown(asc: bool, cache: seq<Key>, until: Option<Key>, ws: WriteSet, rs: ReadSet,
                                          src: Key -> Source)
    ensures var d := SkipDeletes(asc, cache, until, ws, rs, src);
            d.DeletesAt? && d.cache != [] ==> Read(ws, d.rs, src, d.cache[0]).Value?
    decreases |cache|
  {
    hide Read, Before;
    if cache != [] {
      var r := Read(ws, rs, src, cache[0]);
      if r.Value? {
        ReadAgain(ws, rs, src, cache[0]);
        if r.value.None? && (until.None? || Before(asc, cache[0], until.value)) {
          StoppedIsKnown(asc, cache[1..], until, ws, r.rs, src);
        }
      }
    }
  }
}

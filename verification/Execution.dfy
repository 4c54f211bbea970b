/** One transaction: its program, its serial meaning, and its speculative execution on a
    `VersionIndexedStore`, which records what it read, wrote and iterated. */
module Execution {
  import opened Bytes
  import opened MergeIterator
  import opened MultiVersion

  /** One call a transaction makes on its store or on one of its iterators. */
  datatype Op =
    | Commit
    | Get(key: Key)
    | Put(key: Key, value: Option<Bytes>)
    | Open(range: Range, ascending: bool)
    | IsValid(handle: nat)
    | GetKey(handle: nat)
    | GetValue(handle: nat)
    | Next(handle: nat)
    | Close(handle: nat)

  datatype Resp = Done | Got(value: Option<Bytes>) | Is(valid: bool) | At(key: Key)

  /** A deterministic transaction: its next call is a function of the answers it has had so far. */
  type Tx = seq<Resp> -> Op

  // ----- Serial meaning -----

  /** An iterator over a store that holds still: the keys of a snapshot and a position in them. */
  datatype SerialIter = SerialIter(range: Range, ascending: bool, snapshot: KVMap, keys: seq<Key>, pos: nat, open: bool)

  datatype Serial = Serial(store: KVMap, iters: seq<SerialIter>, hist: seq<Resp>)

  predicate OpenAt(st: Serial, h: nat) {
    h < |st.iters| && st.iters[h].open
  }

  /** There is a current entry; calling Key, Value or Next otherwise panics. */
  predicate EntryAt(st: Serial, h: nat) {
    OpenAt(st, h) && st.iters[h].pos < |st.iters[h].keys|
  }

  function Answer(st: Serial, r: Resp): Serial {
    st.(hist := st.hist + [r])
  }

  function Assign(m: KVMap, k: Key, v: Option<Bytes>): KVMap {
    if v.None? then m - {k} else m[k := v.value]
  }

  /** One call, or None where the call panics or writes inside the domain of an open iterator,
      which the KVStore contract forbids. */
  ghost function SerialStep(op: Op, st: Serial): Option<Serial> {
    match op
    case Commit => None
    case Get(k) => Some(Answer(st, Got(Lookup(st.store, k))))
    case Put(k, v) =>
      if exists h: nat :: OpenAt(st, h) && InRange(st.iters[h].range, k) then None
      else Some(Answer(st.(store := Assign(st.store, k, v)), Done))
    case Open(r, asc) =>
      Some(Answer(st.(iters := st.iters + [SerialIter(r, asc, st.store, Scan(asc, r, st.store.Keys), 0, true)]), Done))
    case IsValid(h) => if OpenAt(st, h) then Some(Answer(st, Is(EntryAt(st, h)))) else None
    case GetKey(h) => if EntryAt(st, h) then Some(Answer(st, At(st.iters[h].keys[st.iters[h].pos]))) else None
    case GetValue(h) =>
      if !EntryAt(st, h) then None
      else Some(Answer(st, Got(Lookup(st.iters[h].snapshot, st.iters[h].keys[st.iters[h].pos]))))
    case Next(h) =>
      if !EntryAt(st, h) then None
      else Some(Answer(st.(iters := st.iters[h := st.iters[h].(pos := st.iters[h].pos + 1)]), Done))
    case Close(h) =>
      if OpenAt(st, h) then Some(Answer(st.(iters := st.iters[h := st.iters[h].(open := false)]), Done)) else None
  }

  /** The state after `n` calls when the transaction runs alone on `store`. */
  ghost function SerialAfter(tx: Tx, store: KVMap, n: nat): Option<Serial> {
    if n == 0 then Some(Serial(store, [], []))
    else
      match SerialAfter(tx, store, n - 1)
      case None => None
      case Some(st) => SerialStep(tx(st.hist), st)
  }

  ghost predicate CommitsAfter(tx: Tx, store: KVMap, n: nat) {
    SerialAfter(tx, store, n).Some? && tx(SerialAfter(tx, store, n).value.hist).Commit?
  }

  /** The store a transaction leaves when it runs alone, if it commits at all. */
  ghost function RunAlone(tx: Tx, store: KVMap): Option<KVMap> {
    if n: nat :| CommitsAfter(tx, store, n) then Some(SerialAfter(tx, store, n).value.store) else None
  }

  lemma {:induction false} StuckAfterCommit(tx: Tx, store: KVMap, n: nat, m: nat)
    requires CommitsAfter(tx, store, n) && n < m
    ensures SerialAfter(tx, store, m).None?
    decreases m
  {
    if n < m - 1 { StuckAfterCommit(tx, store, n, m - 1); }
  }

  lemma RunAloneIs(tx: Tx, store: KVMap, n: nat)
    requires CommitsAfter(tx, store, n)
    ensures RunAlone(tx, store) == Some(SerialAfter(tx, store, n).value.store)
  {
    forall m: nat | CommitsAfter(tx, store, m) ensures m == n {
      if n < m { StuckAfterCommit(tx, store, n, m); } else if m < n { StuckAfterCommit(tx, store, m, n); }
    }
  }

  // ----- Speculative execution -----

  /** `UpdateReadSet`: append a value unless an equal one (by `bytes.Equal`) is already there. */
  function UpdateReadSet(rs: ReadSet, k: Key, v: Option<Bytes>): ReadSet {
    var values := if k in rs then rs[k] else [];
    if HasEqual(values, v) then rs[k := values] else rs[k := values + [v]]
  }

  predicate HasEqual(values: seq<Option<Bytes>>, v: Option<Bytes>) {
    exists j :: 0 <= j < |values| && BytesEqual(v, values[j])
  }

  datatype ReadResult = ReadAbort(writer: nat) | Value(rs: ReadSet, value: Option<Bytes>)

  /** `VersionIndexedStore.Get`: own writes, then earlier reads, then the shared source. */
  function Read(ws: WriteSet, rs: ReadSet, src: Key -> Source, k: Key): ReadResult {
    if k in ws then Value(rs, ws[k])
    else if k in rs && |rs[k]| > 0 then Value(rs, rs[k][0])
    else match src(k)
      case Estimated(writer) => ReadAbort(writer)
      case Current(v) => Value(UpdateReadSet(rs, k, v), v)
  }

  /** A second read of a key just read changes nothing. */
  lemma ReadAgain(ws: WriteSet, rs: ReadSet, src: Key -> Source, k: Key)
    requires Read(ws, rs, src, k).Value?
    ensures var r := Read(ws, rs, src, k); Read(ws, r.rs, src, k) == r
  {
  }

  datatype Deletes = DeletesAbort(writer: nat) | DeletesAt(cache: seq<Key>, rs: ReadSet)

  /** `skipCacheDeletes`. The value is fetched, and so recorded, before the key is compared. */
  function SkipDeletes(asc: bool, cache: seq<Key>, until: Option<Key>, ws: WriteSet, rs: ReadSet,
                       src: Key -> Source): (r: Deletes)
    ensures r.DeletesAt? ==> |r.cache| <= |cache|
  {
    if cache == [] then DeletesAt(cache, rs)
    else match Read(ws, rs, src, cache[0])
      case ReadAbort(writer) => DeletesAbort(writer)
      case Value(rs', v) =>
        if v.None? && (until.None? || Before(asc, cache[0], until.value))
        then SkipDeletes(asc, cache[1..], until, ws, rs', src)
        else DeletesAt(cache, rs')
  }

  datatype Skip = SkipAbort(writer: nat) | SkipAt(parent: seq<Entry>, cache: seq<Key>, rs: ReadSet, ok: bool)

  /** `skipUntilExistsOrInvalid`. */
  function SkipUntilExists(asc: bool, parent: seq<Entry>, cache: seq<Key>, ws: WriteSet, rs: ReadSet,
                           src: Key -> Source): Skip
    decreases |parent| + |cache|
  {
    if parent == [] then
      match SkipDeletes(asc, cache, None, ws, rs, src)
      case DeletesAbort(writer) => SkipAbort(writer)
      case DeletesAt(c, rs') => SkipAt(parent, c, rs', c != [])
    else if cache == [] || Before(asc, parent[0].key, cache[0]) then SkipAt(parent, cache, rs, true)
    else match Read(ws, rs, src, cache[0])
      case ReadAbort(writer) => SkipAbort(writer)
      case Value(rs', v) =>
        if v.Some? then SkipAt(parent, cache, rs', true)
        else if parent[0].key == cache[0] then SkipUntilExists(asc, parent[1..], cache[1..], ws, rs', src)
        else match SkipDeletes(asc, cache[1..], Some(parent[0].key), ws, rs', src)
          case DeletesAbort(writer) => SkipAbort(writer)
          case DeletesAt(c, rs'') => SkipUntilExists(asc, parent, c, ws, rs'', src)
  }

  /** The current entry comes from the cache side (which wins ties). */
  predicate FromCache(asc: bool, parent: seq<Entry>, cache: seq<Key>) {
    cache != [] && (parent == [] || !Before(asc, parent[0].key, cache[0]))
  }

  function HeadKey(asc: bool, parent: seq<Entry>, cache: seq<Key>): Key
    requires parent != [] || cache != []
  {
    if FromCache(asc, parent, cache) then cache[0] else parent[0].key
  }

  /** A tracked iterator. `visited`, `nexts` and `ended` are its history: the keys it has shown in
      order, how often it was advanced, and whether it has reported its end. */
  datatype Iter = Iter(tracker: Tracker, parent: seq<Entry>, cache: seq<Key>, open: bool,
                       visited: seq<Key>, nexts: nat, ended: bool)

  /** The fields of a `VersionIndexedStore` in use, with the answers given so far. */
  datatype Local = Local(hist: seq<Resp>, readset: ReadSet, writeset: WriteSet, iters: seq<Iter>)

  const Start := Local([], map[], map[], [])

  function Reply(l: Local, r: Resp): Local {
    l.(hist := l.hist + [r])
  }

  predicate Usable(l: Local, h: nat) {
    h < |l.iters| && l.iters[h].open
  }

  /** `AddKey`: the key joins the tracked keys and becomes the early-stop key. */
  function Touch(it: Iter, k: Key): Iter {
    it.(tracker := it.tracker.(iteratedKeys := it.tracker.iteratedKeys + {k}, earlyStop := Some(k)),
        visited := if |it.visited| == it.nexts then it.visited + [k] else it.visited)
  }

  /** `Valid` found the end of the range. */
  function End(it: Iter): Iter {
    it.(tracker := it.tracker.(earlyStop := None), ended := true)
  }

  function Skipped(l: Local, h: nat, src: Key -> Source): Skip
    requires h < |l.iters|
  {
    SkipUntilExists(l.iters[h].tracker.ascending, l.iters[h].parent, l.iters[h].cache, l.writeset, l.readset, src)
  }

  function Placed(it: Iter, s: Skip): Iter
    requires s.SkipAt?
  {
    it.(parent := s.parent, cache := s.cache)
  }

  /** The iterator after a skip that found an entry, with that entry tracked. */
  function Shown(it: Iter, s: Skip): Iter
    requires s.SkipAt? && (s.parent != [] || s.cache != [])
  {
    Touch(Placed(it, s), HeadKey(it.tracker.ascending, s.parent, s.cache))
  }

  /** The two sides after passing the current entry: a tie passes both. */
  function ParentAfter(asc: bool, parent: seq<Entry>, cache: seq<Key>): seq<Entry> {
    if parent != [] && (!FromCache(asc, parent, cache) || parent[0].key == cache[0]) then parent[1..] else parent
  }

  function CacheAfter(asc: bool, parent: seq<Entry>, cache: seq<Key>): seq<Key> {
    if FromCache(asc, parent, cache) then cache[1..] else cache
  }

  function Advance(it: Iter): Iter {
    it.(parent := ParentAfter(it.tracker.ascending, it.parent, it.cache),
        cache := CacheAfter(it.tracker.ascending, it.parent, it.cache),
        nexts := it.nexts + 1)
  }

  /** `mvsMergeIterator.Value` at a settled position; values taken from the parent are recorded. */
  function EntryValue(s: Skip, asc: bool, ws: WriteSet, src: Key -> Source): ReadResult
    requires s.SkipAt? && (s.parent != [] || s.cache != [])
  {
    if FromCache(asc, s.parent, s.cache) then Read(ws, s.rs, src, s.cache[0])
    else Value(UpdateReadSet(s.rs, s.parent[0].key, Some(s.parent[0].value)), Some(s.parent[0].value))
  }

  function UpdateIter(l: Local, h: nat, it: Iter, rs: ReadSet): Local
    requires h < |l.iters|
  {
    l.(iters := l.iters[h := it], readset := rs)
  }

  /** `VersionIndexedStore.iterator`; `items` are the keys collected from earlier transactions. */
  ghost function Opened(l: Local, parent: KVMap, items: set<Key>, r: Range, asc: bool): Iter {
    Iter(Tracker(r, asc, l.writeset, {}, None), EntriesOf(asc, r, parent),
         Scan(asc, r, items + l.writeset.Keys + l.readset.Keys), true, [], 0, false)
  }

  datatype Outcome = Stuck | Abort(writer: nat) | Stepped(local: Local)

  /** One call of a speculative execution. `src` answers shared reads during this call. Stuck stands
      for a panic, or for a write the iterator contract forbids. */
  ghost function LocalStep(op: Op, l: Local, parent: KVMap, items: set<Key>, src: Key -> Source): Outcome {
    match op
    case Commit => Stuck
    case Get(k) =>
      (match Read(l.writeset, l.readset, src, k)
       case ReadAbort(writer) => Abort(writer)
       case Value(rs, v) => Stepped(Reply(l.(readset := rs), Got(v))))
    case Put(k, v) =>
      if exists h: nat :: Usable(l, h) && InRange(l.iters[h].tracker.range, k) then Stuck
      else Stepped(Reply(l.(writeset := l.writeset[k := v]), Done))
    case Open(r, asc) => Stepped(Reply(l.(iters := l.iters + [Opened(l, parent, items, r, asc)]), Done))
    case IsValid(h) => if Usable(l, h) then StepIsValid(l, h, src) else Stuck
    case GetKey(h) => if Usable(l, h) then StepGetKey(l, h, src) else Stuck
    case GetValue(h) => if Usable(l, h) then StepGetValue(l, h, src) else Stuck
    case Next(h) => if Usable(l, h) then StepNext(l, h, src) else Stuck
    case Close(h) =>
      if Usable(l, h) then Stepped(Reply(UpdateIter(l, h, l.iters[h].(open := false), l.readset), Done)) else Stuck
  }

  predicate SkipFound(s: Skip) {
    s.SkipAt? && s.ok && (s.parent != [] || s.cache != [])
  }

  function StepIsValid(l: Local, h: nat, src: Key -> Source): Outcome
    requires Usable(l, h)
  {
    var s := Skipped(l, h, src);
    if s.SkipAbort? then Abort(s.writer)
    else if SkipFound(s) then Stepped(Reply(UpdateIter(l, h, Shown(l.iters[h], s), s.rs), Is(true)))
    else Stepped(Reply(UpdateIter(l, h, End(Placed(l.iters[h], s)), s.rs), Is(false)))
  }

  function StepGetKey(l: Local, h: nat, src: Key -> Source): Outcome
    requires Usable(l, h)
  {
    var s := Skipped(l, h, src);
    if s.SkipAbort? then Abort(s.writer)
    else if !SkipFound(s) then Stuck
    else Stepped(Reply(UpdateIter(l, h, Shown(l.iters[h], s), s.rs),
                       At(HeadKey(l.iters[h].tracker.ascending, s.parent, s.cache))))
  }

  function StepGetValue(l: Local, h: nat, src: Key -> Source): Outcome
    requires Usable(l, h)
  {
    var s := Skipped(l, h, src);
    if s.SkipAbort? then Abort(s.writer)
    else if !SkipFound(s) then Stuck
    else match EntryValue(s, l.iters[h].tracker.ascending, l.writeset, src)
      case ReadAbort(writer) => Abort(writer)
      case Value(rs, v) => Stepped(Reply(UpdateIter(l, h, Shown(l.iters[h], s), rs), Got(v)))
  }

  function StepNext(l: Local, h: nat, src: Key -> Source): Outcome
    requires Usable(l, h)
  {
    var s := Skipped(l, h, src);
    if s.SkipAbort? then Abort(s.writer)
    else if !SkipFound(s) then Stuck
    else Stepped(Reply(UpdateIter(l, h, Advance(Shown(l.iters[h], s)), s.rs), Done))
  }

  // ----- Publishing -----

  function Trackers(iters: seq<Iter>): (ts: seq<Tracker>)
    ensures |ts| == |iters| && forall h :: 0 <= h < |ts| ==> ts[h] == iters[h].tracker
  {
    seq(|iters|, h requires 0 <= h < |iters| => iters[h].tracker)
  }

  /** `WriteToMultiVersionStore`: an empty readset or iterateset does not replace a stored one. */
  ghost function PublishedState(s: Shared, i: nat, incarnation: int, l: Local): Shared {
    SetRecords(SetWriteset(s, i, incarnation, l.writeset), i, l)
  }

  function SetRecords(s: Shared, i: nat, l: Local): Shared {
    s.(readsets := if l.readset != map[] then s.readsets[i := l.readset] else s.readsets,
       iteratesets := if l.iters != [] then s.iteratesets[i := Trackers(l.iters)] else s.iteratesets)
  }
}

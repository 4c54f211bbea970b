/** The item stream of a snapshot (`snapshots/manager.go`): what `createSnapshot` writes and what
    `doRestoreSnapshot` makes of it. */
module SnapshotStream {
  import opened Bytes
  import opened Words
  import opened Listing

  /** An item of the multistore, the announcement of an extension, or one of its payloads. */
  datatype Item =
    | StoreItem(data: Bytes)
    | Extension(name: Bytes, format: uint32)
    | Payload(data: Bytes)

  /** How often an extension calls the payload reader: until the end of its payloads (None), or at most so many
      times. */
  type Calls = Option<nat>

  /** An extension: the format and payloads it writes, the formats it accepts, how it reads and whether it then reports
      an error. */
  datatype Ext = Ext(format: uint32, payloads: seq<Bytes>, supported: set<uint32>, calls: Calls, fails: bool)

  type Registry = map<Bytes, Ext>

  // ---------- writing ----------

  function PayloadItems(ps: seq<Bytes>): (r: seq<Item>)
    ensures |r| == |ps| && forall i :: 0 <= i < |ps| ==> r[i] == Payload(ps[i])
  {
    seq(|ps|, i requires 0 <= i < |ps| => Payload(ps[i]))
  }

  function StoreItems(ds: seq<Bytes>): (r: seq<Item>)
    ensures |r| == |ds| && forall i :: 0 <= i < |ds| ==> r[i] == StoreItem(ds[i])
  {
    seq(|ds|, i requires 0 <= i < |ds| => StoreItem(ds[i]))
  }

  function ExtensionItems(names: seq<Bytes>, exts: Registry): seq<Item>
    requires forall i :: 0 <= i < |names| ==> names[i] in exts
  {
    if names == [] then []
    else
      var e := exts[names[0]];
      [Extension(names[0], e.format)] + PayloadItems(e.payloads) + ExtensionItems(names[1..], exts)
  }

  /** The names of a registry, sorted; there is only one such list. */
  ghost predicate SortedNames(names: seq<Bytes>, exts: Registry) {
    Ordered(true, names) && forall n :: n in names <==> n in exts
  }

  lemma SortedNamesUnique(a: seq<Bytes>, b: seq<Bytes>, exts: Registry)
    requires SortedNames(a, exts) && SortedNames(b, exts)
    ensures a == b
  {
    OrderedUnique(true, a, b);
  }

  method SortedExtensionNames(exts: Registry) returns (names: seq<Bytes>)
    ensures SortedNames(names, exts)
  {
    var listed, todo := [], exts.Keys;
    while todo != {}
      invariant todo <= exts.Keys && forall n :: n in listed <==> n in exts && n !in todo
      invariant forall i, j :: 0 <= i < j < |listed| ==> listed[i] != listed[j]
      decreases todo
    {
      var n :| n in todo;
      listed, todo := listed + [n], todo - {n};
    }
    names := SortNames(listed);
    SortedListing(listed, names);
  }

  lemma SortedListing(listed: seq<Bytes>, names: seq<Bytes>)
    requires forall i, j :: 0 <= i < j < |listed| ==> listed[i] != listed[j]
    requires NameOrdered(names) && multiset(names) == multiset(listed)
    ensures Ordered(true, names) && forall n :: n in names <==> n in listed
  {
    forall n ensures n in names <==> n in listed {
      assert n in names <==> n in multiset(names);
      assert n in listed <==> n in multiset(listed);
    }
    forall i, j | 0 <= i < j < |names| ensures names[i] != names[j] {
      if names[i] == names[j] {
        CountTwice(names, i, j);
        assert names[i] in multiset(listed);
        var a :| 0 <= a < |listed| && listed[a] == names[i];
        var b := AnotherIndex(listed, a);
        assert false;
      }
    }
  }

  /** Also returns the names, in the order in which their items follow. */
  method CreateSnapshot(store: seq<Bytes>, exts: Registry) returns (out: seq<Item>, names: seq<Bytes>)
    ensures SortedNames(names, exts) && out == StoreItems(store) + ExtensionItems(names, exts)
  {
    names := SortedExtensionNames(exts);
    out := StoreItems(store);
    for i := 0 to |names|
      invariant out + ExtensionItems(names[i..], exts) == StoreItems(store) + ExtensionItems(names, exts)
    {
      var e := exts[names[i]];
      assert names[i..][1..] == names[i + 1..];
      ghost var rest, before := ExtensionItems(names[i + 1..], exts), out;
      out := out + [Extension(names[i], e.format)];
      out := out + PayloadItems(e.payloads);
      assert out + rest == before + ([Extension(names[i], e.format)] + PayloadItems(e.payloads) + rest);
    }
  }

  // ---------- restoring ----------

  datatype Restored = Restored(name: Bytes, format: uint32, payloads: seq<Bytes>)
  datatype RestoreError =
    | UnknownItem
    | UnknownExtension(name: Bytes)
    | UnknownFormat(name: Bytes, format: uint32)
    | ExtensionFailed(name: Bytes)

  /** How the loop over the extensions ends, if it does. */
  datatype End = Finished | Failed(error: RestoreError) | Never

  datatype Result = Result(done: seq<Restored>, end: End)

  /** What an extension received, the last item read (None at the end of the stream) and what follows. */
  datatype Received = Received(payloads: seq<Bytes>, next: Option<Item>, rest: seq<Item>)

  function ReadPayloads(stream: seq<Item>, calls: Calls): (r: Received)
    requires calls != Some(0)
    ensures |r.rest| < |stream| || (stream == [] && r.next.None? && r.rest == [])
    decreases |stream|
  {
    if stream == [] then Received([], None, [])
    else if !stream[0].Payload? then Received([], Some(stream[0]), stream[1..])
    else if calls == Some(1) then Received([stream[0].data], Some(stream[0]), stream[1..])
    else
      var more := ReadPayloads(stream[1..], if calls.None? then None else Some(calls.value - 1));
      Received([stream[0].data] + more.payloads, more.next, more.rest)
  }

  /** The loop over extensions. An extension that leaves payloads unread ends it, without an error; one that never calls
      its reader leaves its own announcement in place, to be met again and again. */
  function RestoreFrom(exts: Registry, next: Option<Item>, stream: seq<Item>): Result
    decreases |stream|, if next.Some? then 1 else 0
  {
    if next.None? then Result([], Finished)
    else match next.value
      case Extension(name, format) =>
        if name !in exts then Result([], Failed(UnknownExtension(name)))
        else if format !in exts[name].supported then Result([], Failed(UnknownFormat(name, format)))
        else if exts[name].fails then Result([], Failed(ExtensionFailed(name)))
        else if exts[name].calls == Some(0) then Result([], Never)
        else
          var r := ReadPayloads(stream, exts[name].calls);
          var first := Restored(name, format, r.payloads);
          if r.next.Some? && r.next.value.Payload? then Result([first], Finished)
          else
            var more := RestoreFrom(exts, r.next, r.rest);
            Result([first] + more.done, more.end)
      case _ => Result([], Failed(UnknownItem))
  }

  /** The multistore reads its own items and hands over the first other one. */
  function RestoreStore(stream: seq<Item>): Received {
    if stream == [] then Received([], None, [])
    else if !stream[0].StoreItem? then Received([], Some(stream[0]), stream[1..])
    else
      var more := RestoreStore(stream[1..]);
      more.(payloads := [stream[0].data] + more.payloads)
  }

  /** `doRestoreSnapshot` with the variables that its closure shares with the loop. */
  class Restorer {
    const extensions: Registry
    var nextItem: Option<Item>
    var stream: seq<Item>

    constructor (extensions: Registry, stream: seq<Item>)
      ensures this.extensions == extensions && this.stream == stream && nextItem == None
    {
      this.extensions, this.stream, nextItem := extensions, stream, None;
    }

    /** The closure `payloadReader`; None is the end-of-file error. */
    method PayloadReader() returns (p: Option<Bytes>)
      modifies this
      ensures if old(stream) == [] then p == None && nextItem == None && stream == []
              else nextItem == Some(old(stream)[0]) && stream == old(stream)[1..] &&
                   p == if old(stream)[0].Payload? then Some(old(stream)[0].data) else None
    {
      nextItem := None;
      if |stream| == 0 { return None; }
      nextItem, stream := Some(stream[0]), stream[1..];
      if !nextItem.value.Payload? { return None; }
      return Some(nextItem.value.data);
    }

    /** An extension that calls the reader as often as it does. Without a call nothing changes. */
    method RestoreExtension(calls: Calls) returns (payloads: seq<Bytes>)
      modifies this
      ensures Received(payloads, nextItem, stream)
           == if calls == Some(0) then Received([], old(nextItem), old(stream)) else ReadPayloads(old(stream), calls)
      decreases |stream|
    {
      if calls == Some(0) { return []; }
      var p := PayloadReader();
      if p.None? { return []; }
      if calls == Some(1) { return [p.value]; }
      payloads := RestoreExtension(if calls.None? then None else Some(calls.value - 1));
      payloads := [p.value] + payloads;
    }

    /** The multistore's part of the stream. */
    method RestoreMultistore() returns (items: seq<Bytes>)
      modifies this
      ensures Received(items, nextItem, stream) == RestoreStore(old(stream))
    {
      items := [];
      ghost var all := RestoreStore(stream);
      while |stream| > 0 && stream[0].StoreItem?
        invariant all == RestoreStore(stream).(payloads := items + RestoreStore(stream).payloads)
        decreases |stream|
      {
        ghost var rest := RestoreStore(stream[1..]).payloads;
        assert items + ([stream[0].data] + rest) == items + [stream[0].data] + rest;
        items, stream := items + [stream[0].data], stream[1..];
      }
      assert items + [] == items;
      if |stream| == 0 { nextItem := None; } else { nextItem, stream := Some(stream[0]), stream[1..]; }
    }

    /** At most so many rounds of the loop; None where it is still running then. Any loop that ends does so within a
        number of rounds bounded by the stream. */
    method RestoreExtensions(rounds: nat) returns (r: Option<Result>)
      modifies this
      ensures r.Some? ==> r.value == RestoreFrom(extensions, old(nextItem), old(stream)) && !r.value.end.Never?
      ensures !RestoreFrom(extensions, old(nextItem), old(stream)).end.Never? && rounds > |old(stream)| + 1 ==> r.Some?
    {
      var done := [];
      ghost var all := RestoreFrom(extensions, nextItem, stream);
      for n := 0 to rounds
        invariant all == Onto(done, RestoreFrom(extensions, nextItem, stream))
        invariant !all.end.Never? ==> |stream| + (if nextItem.Some? then 1 else 0) + n <= |old(stream)| + 1
      {
        if nextItem.None? { return Some(Result(done, Finished)); }
        if !nextItem.value.Extension? { return Some(Result(done, Failed(UnknownItem))); }
        var name, format := nextItem.value.name, nextItem.value.format;
        if name !in extensions { return Some(Result(done, Failed(UnknownExtension(name)))); }
        if format !in extensions[name].supported { return Some(Result(done, Failed(UnknownFormat(name, format)))); }
        var calls := extensions[name].calls;
        var payloads := RestoreExtension(calls);
        if extensions[name].fails { return Some(Result(done, Failed(ExtensionFailed(name)))); }
        if calls != Some(0) {
          ghost var more := RestoreFrom(extensions, nextItem, stream).done;
          var first := Restored(name, format, payloads);
          assert done + ([first] + more) == done + [first] + more;
          done := done + [first];
        }
        if nextItem.Some? && nextItem.value.Payload? { return Some(Result(done, Finished)); }
      }
      r := None;
    }
  }

  ghost function Onto(done: seq<Restored>, r: Result): Result {
    Result(done + r.done, r.end)
  }

  // ---------- restoring undoes creating ----------

  ghost function Expected(names: seq<Bytes>, exts: Registry): seq<Restored>
    requires forall i :: 0 <= i < |names| ==> names[i] in exts
  {
    if names == [] then []
    else [Restored(names[0], exts[names[0]].format, exts[names[0]].payloads)] + Expected(names[1..], exts)
  }

  ghost predicate Accepts(from: Registry, to: Registry, name: Bytes)
    requires name in from
  {
    name in to && from[name].format in to[name].supported && !to[name].fails && to[name].calls != Some(0)
  }

  /** The extension calls the reader often enough to see the end of its payloads. */
  predicate ReadsToEnd(calls: Calls, count: nat) {
    calls.None? || calls.value > count
  }

  /** Every extension is known, accepts the format, does not fail, calls its reader at all and reads to the end of its
      payloads; the last one may stop right after its last payload. */
  ghost predicate Restorable(names: seq<Bytes>, from: Registry, to: Registry)
    requires forall i :: 0 <= i < |names| ==> names[i] in from
  {
    forall i :: 0 <= i < |names| ==>
      && Accepts(from, to, names[i])
      && (|| ReadsToEnd(to[names[i]].calls, |from[names[i]].payloads|)
          || (i == |names| - 1 && to[names[i]].calls == Some(|from[names[i]].payloads|)))
  }

  lemma RestorableStep(names: seq<Bytes>, from: Registry, to: Registry)
    requires names != [] && forall i :: 0 <= i < |names| ==> names[i] in from
    ensures Restorable(names, from, to) <==>
            && Restorable(names[1..], from, to)
            && Accepts(from, to, names[0])
            && (|| ReadsToEnd(to[names[0]].calls, |from[names[0]].payloads|)
                || (|names| == 1 && to[names[0]].calls == Some(|from[names[0]].payloads|)))
  {
    assert forall i :: 0 < i < |names| ==> names[i] == names[1..][i - 1];
  }

  /** Reading to the end gives exactly the payloads and stops at the next announcement. */
  lemma {:induction false} ReadsAll(ps: seq<Bytes>, tail: seq<Item>, calls: Calls)
    requires calls != Some(0) && ReadsToEnd(calls, |ps|) && (tail == [] || !tail[0].Payload?)
    ensures ReadPayloads(PayloadItems(ps) + tail, calls) ==
            if tail == [] then Received(ps, None, []) else Received(ps, Some(tail[0]), tail[1..])
    decreases |ps|
  {
    var stream := PayloadItems(ps) + tail;
    if ps == [] {
      assert stream == tail;
    } else {
      assert stream[0] == Payload(ps[0]) && stream[1..] == PayloadItems(ps[1..]) + tail;
      ReadsAll(ps[1..], tail, if calls.None? then None else Some(calls.value - 1));
    }
  }

  /** Stopping early leaves a payload as the last item read. */
  lemma {:induction false} ReadsSome(ps: seq<Bytes>, tail: seq<Item>, calls: Calls)
    requires calls != Some(0) && !ReadsToEnd(calls, |ps|)
    ensures ReadPayloads(PayloadItems(ps) + tail, calls).payloads == ps[..calls.value]
    ensures var next := ReadPayloads(PayloadItems(ps) + tail, calls).next; next.Some? && next.value.Payload?
    decreases |ps|
  {
    var stream := PayloadItems(ps) + tail;
    assert stream[0] == Payload(ps[0]) && stream[1..] == PayloadItems(ps[1..]) + tail;
    if calls.value > 1 { ReadsSome(ps[1..], tail, Some(calls.value - 1)); }
  }

  ghost function RestoreItems(to: Registry, items: seq<Item>): Result {
    if items == [] then RestoreFrom(to, None, []) else RestoreFrom(to, Some(items[0]), items[1..])
  }

  lemma AnnouncedFirst(names: seq<Bytes>, exts: Registry)
    requires forall i :: 0 <= i < |names| ==> names[i] in exts
    ensures ExtensionItems(names, exts) == [] || ExtensionItems(names, exts)[0].Extension?
  {
  }

  /** What restoring makes of the first extension. */
  lemma FirstExtension(names: seq<Bytes>, from: Registry, to: Registry, r: Result)
    requires names != [] && forall i :: 0 <= i < |names| ==> names[i] in from
    requires Accepts(from, to, names[0]) && r == RestoreItems(to, ExtensionItems(names, from))
    ensures var e, calls := from[names[0]], to[names[0]].calls;
            if ReadsToEnd(calls, |e.payloads|) then
              r == Onto([Restored(names[0], e.format, e.payloads)], RestoreItems(to, ExtensionItems(names[1..], from)))
            else r == Result([Restored(names[0], e.format, e.payloads[..calls.value])], Finished)
  {
    var e, calls := from[names[0]], to[names[0]].calls;
    var tail := ExtensionItems(names[1..], from);
    var items := ExtensionItems(names, from);
    assert items[0] == Extension(names[0], e.format) && items[1..] == PayloadItems(e.payloads) + tail;
    if ReadsToEnd(calls, |e.payloads|) {
      AnnouncedFirst(names[1..], from);
      ReadsAll(e.payloads, tail, calls);
    } else {
      ReadsSome(e.payloads, tail, calls);
    }
  }

  /** Restoring gives every extension exactly its own payloads, in sorted order, if and only if every one is
      known, accepts the format and reads to the end. */
  lemma {:induction false} RestoresExactly(names: seq<Bytes>, from: Registry, to: Registry)
    requires forall i :: 0 <= i < |names| ==> names[i] in from
    ensures RestoreItems(to, ExtensionItems(names, from)) == Result(Expected(names, from), Finished) <==>
            Restorable(names, from, to)
    decreases |names|
  {
    if names != [] {
      RestorableStep(names, from, to);
      RestoresExactly(names[1..], from, to);
      var r := RestoreItems(to, ExtensionItems(names, from));
      if Accepts(from, to, names[0]) {
        FirstExtension(names, from, to, r);
        FirstMatches(names, from, to, r, RestoreItems(to, ExtensionItems(names[1..], from)));
      } else {
        Refused(names, from, to);
      }
    }
  }

  lemma Refused(names: seq<Bytes>, from: Registry, to: Registry)
    requires names != [] && (forall i :: 0 <= i < |names| ==> names[i] in from) && !Accepts(from, to, names[0])
    ensures !RestoreItems(to, ExtensionItems(names, from)).end.Finished?
  {
    assert ExtensionItems(names, from)[0] == Extension(names[0], from[names[0]].format);
  }

  lemma FirstMatches(names: seq<Bytes>, from: Registry, to: Registry, r: Result, rest: Result)
    requires names != [] && (forall i :: 0 <= i < |names| ==> names[i] in from) && Accepts(from, to, names[0])
    requires var e, calls := from[names[0]], to[names[0]].calls;
             r == if ReadsToEnd(calls, |e.payloads|) then Onto([Restored(names[0], e.format, e.payloads)], rest)
                  else Result([Restored(names[0], e.format, e.payloads[..calls.value])], Finished)
    requires rest == Result(Expected(names[1..], from), Finished) <==> Restorable(names[1..], from, to)
    ensures r == Result(Expected(names, from), Finished) <==>
            if ReadsToEnd(to[names[0]].calls, |from[names[0]].payloads|) then Restorable(names[1..], from, to)
            else |names| == 1 && to[names[0]].calls == Some(|from[names[0]].payloads|)
  {
    var e, calls, tail := from[names[0]], to[names[0]].calls, Expected(names[1..], from);
    var head := Restored(names[0], e.format, e.payloads);
    if ReadsToEnd(calls, |e.payloads|) {
      assert ([head] + rest.done)[1..] == rest.done && ([head] + tail)[1..] == tail;
    } else {
      assert e.payloads[..calls.value] == e.payloads <==> calls.value == |e.payloads|;
      assert |[head] + tail| == 1 <==> tail == [];
      assert tail == [] <==> |names| == 1;
      assert ([head] + tail)[0] == head;
    }
  }

  /** The first i extensions are known, accept their format and read to the end. */
  ghost predicate FineUpTo(names: seq<Bytes>, from: Registry, to: Registry, i: nat)
    requires i <= |names| && forall j :: 0 <= j < |names| ==> names[j] in from
  {
    forall j :: 0 <= j < i ==> Accepts(from, to, names[j]) && ReadsToEnd(to[names[j]].calls, |from[names[j]].payloads|)
  }

  /** The outcome when the extension at i is the first that is not restored in full: an error that names it if it is
      unknown, refuses the format or fails, no end if it never calls its reader, no error if it stops reading early;
      nothing after it is restored. */
  ghost function CutShort(names: seq<Bytes>, from: Registry, to: Registry, i: nat): Result
    requires i < |names| && forall j :: 0 <= j < |names| ==> names[j] in from
    requires Accepts(from, to, names[i]) ==> !ReadsToEnd(to[names[i]].calls, |from[names[i]].payloads|)
  {
    var name, e, before := names[i], from[names[i]], Expected(names[..i], from);
    if name !in to then Result(before, Failed(UnknownExtension(name)))
    else if e.format !in to[name].supported then Result(before, Failed(UnknownFormat(name, e.format)))
    else if to[name].fails then Result(before, Failed(ExtensionFailed(name)))
    else if to[name].calls == Some(0) then Result(before, Never)
    else Result(before + [Restored(name, e.format, e.payloads[..to[name].calls.value])], Finished)
  }

  lemma {:induction false} StopsAt(names: seq<Bytes>, from: Registry, to: Registry, i: nat)
    requires i < |names| && (forall j :: 0 <= j < |names| ==> names[j] in from) && FineUpTo(names, from, to, i)
    requires Accepts(from, to, names[i]) ==> !ReadsToEnd(to[names[i]].calls, |from[names[i]].payloads|)
    ensures RestoreItems(to, ExtensionItems(names, from)) == CutShort(names, from, to, i)
    decreases i
  {
    var r := RestoreItems(to, ExtensionItems(names, from));
    if i == 0 {
      assert names[..0] == [];
      StopsAtFirst(names, from, to, r);
    } else {
      FirstExtension(names, from, to, r);
      assert names[1..][i - 1] == names[i];
      StopsAt(names[1..], from, to, i - 1);
      CutShortStep(names, from, to, i);
    }
  }

  lemma StopsAtFirst(names: seq<Bytes>, from: Registry, to: Registry, r: Result)
    requires names != [] && forall j :: 0 <= j < |names| ==> names[j] in from
    requires Accepts(from, to, names[0]) ==> !ReadsToEnd(to[names[0]].calls, |from[names[0]].payloads|)
    requires r == RestoreItems(to, ExtensionItems(names, from))
    ensures r == CutShort(names, from, to, 0)
  {
    assert names[..0] == [];
    var items := ExtensionItems(names, from);
    assert items[0] == Extension(names[0], from[names[0]].format);
    if Accepts(from, to, names[0]) { FirstExtension(names, from, to, r); }
  }

  lemma CutShortStep(names: seq<Bytes>, from: Registry, to: Registry, i: nat)
    requires 0 < i < |names| && forall j :: 0 <= j < |names| ==> names[j] in from
    requires Accepts(from, to, names[i]) ==> !ReadsToEnd(to[names[i]].calls, |from[names[i]].payloads|)
    ensures CutShort(names, from, to, i) ==
            Onto([Restored(names[0], from[names[0]].format, from[names[0]].payloads)],
                 CutShort(names[1..], from, to, i - 1))
  {
    assert names[..i][1..] == names[1..][..i - 1] && names[..i][0] == names[0];
  }

  /** Extensions that are restored in full leave what follows them to be restored as if it came alone. */
  lemma {:induction false} RestoresBefore(names: seq<Bytes>, from: Registry, to: Registry, tail: seq<Item>)
    requires (forall j :: 0 <= j < |names| ==> names[j] in from) && FineUpTo(names, from, to, |names|)
    requires tail == [] || !tail[0].Payload?
    ensures RestoreItems(to, ExtensionItems(names, from) + tail) == Onto(Expected(names, from), RestoreItems(to, tail))
    decreases |names|
  {
    if names == [] {
      assert ExtensionItems(names, from) + tail == tail;
    } else {
      var e, more := from[names[0]], ExtensionItems(names[1..], from) + tail;
      FirstItems(names, from, tail);
      AnnouncedFirst(names[1..], from);
      hide ExtensionItems, RestoreItems, Onto, Accepts;
      RestoresOne(names[0], from, to, more);
      RestoresBefore(names[1..], from, to, tail);
      OntoStep(Restored(names[0], e.format, e.payloads), Expected(names[1..], from), RestoreItems(to, tail));
    }
  }

  lemma FirstItems(names: seq<Bytes>, from: Registry, tail: seq<Item>)
    requires names != [] && forall j :: 0 <= j < |names| ==> names[j] in from
    ensures var e, more := from[names[0]], ExtensionItems(names[1..], from) + tail;
            ExtensionItems(names, from) + tail == [Extension(names[0], e.format)] + (PayloadItems(e.payloads) + more)
  {
  }

  lemma RestoresOne(name: Bytes, from: Registry, to: Registry, more: seq<Item>)
    requires name in from && Accepts(from, to, name) && ReadsToEnd(to[name].calls, |from[name].payloads|)
    requires more == [] || !more[0].Payload?
    ensures var e := from[name];
            RestoreItems(to, [Extension(name, e.format)] + (PayloadItems(e.payloads) + more))
              == Onto([Restored(name, e.format, e.payloads)], RestoreItems(to, more))
  {
    var e := from[name];
    var stream := PayloadItems(e.payloads) + more;
    assert ([Extension(name, e.format)] + stream)[1..] == stream;
    ReadsAll(e.payloads, more, to[name].calls);
  }

  lemma OntoStep(first: Restored, done: seq<Restored>, r: Result)
    ensures Onto([first] + done, r) == Onto([first], Onto(done, r))
  {
    assert [first] + done + r.done == [first] + (done + r.done);
  }

  /** An item of the multistore after the extensions ends the restoration with an error, and so does any item but an
      extension's in front of them. */
  lemma StrayItemRefused(names: seq<Bytes>, from: Registry, to: Registry, item: Item, rest: seq<Item>)
    requires (forall j :: 0 <= j < |names| ==> names[j] in from) && FineUpTo(names, from, to, |names|)
    requires item.StoreItem? || (item.Payload? && names == [])
    ensures RestoreItems(to, ExtensionItems(names, from) + ([item] + rest))
         == Result(Expected(names, from), Failed(UnknownItem))
  {
    if item.StoreItem? {
      RestoresBefore(names, from, to, [item] + rest);
    } else {
      assert ExtensionItems(names, from) + ([item] + rest) == [item] + rest;
    }
  }

  /** The multistore takes its own items and leaves the extensions'. */
  lemma {:induction false} StoreTakesItsOwn(store: seq<Bytes>, names: seq<Bytes>, exts: Registry)
    requires forall i :: 0 <= i < |names| ==> names[i] in exts
    ensures var r, items := RestoreStore(StoreItems(store) + ExtensionItems(names, exts)), ExtensionItems(names, exts);
            r == if items == [] then Received(store, None, []) else Received(store, Some(items[0]), items[1..])
    decreases |store|
  {
    hide ExtensionItems;
    var items := ExtensionItems(names, exts);
    var stream := StoreItems(store) + items;
    if store == [] {
      assert stream == items;
      AnnouncedFirst(names, exts);
    } else {
      assert stream[0] == StoreItem(store[0]) && stream[1..] == StoreItems(store[1..]) + items;
      StoreTakesItsOwn(store[1..], names, exts);
    }
  }

  /** The whole way: create with one registry, restore with another, in more rounds than any loop that ends takes. */
  method CreateThenRestore(store: seq<Bytes>, from: Registry, to: Registry)
    returns (items: seq<Bytes>, r: Option<Result>, names: seq<Bytes>)
    ensures SortedNames(names, from) && items == store
    ensures r == Some(Result(Expected(names, from), Finished)) <==> Restorable(names, from, to)
    ensures r.None? <==> RestoreItems(to, ExtensionItems(names, from)).end.Never?
  {
    var out;
    out, names := CreateSnapshot(store, from);
    var restorer := new Restorer(to, out);
    StoreTakesItsOwn(store, names, from);
    RestoresExactly(names, from, to);
    items := restorer.RestoreMultistore();
    r := restorer.RestoreExtensions(|restorer.stream| + 2);
  }
}

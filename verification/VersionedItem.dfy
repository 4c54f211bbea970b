/** One versioned key: the ordered-map item of `data_structures.go` and the slice-backed item of
    `data_list.go`, which refines it as long as indices stay below the slice's length. */
module VersionedItem {
  import opened Bytes

  /** `valueItem`: a value, a deletion (nil value) or an ESTIMATE left by an aborted transaction. */
  datatype ValueItem = ValueItem(index: nat, incarnation: int, value: Option<Bytes>, estimate: bool) {
    predicate IsEstimate() { estimate }
    predicate IsDeleted() { value.None? && !estimate }
  }

  function NewValueItem(index: nat, incarnation: int, value: Bytes): ValueItem {
    ValueItem(index, incarnation, Some(value), false)
  }

  function NewEstimateItem(index: nat, incarnation: int): ValueItem {
    ValueItem(index, incarnation, None, true)
  }

  function NewDeletedItem(index: nat, incarnation: int): ValueItem {
    ValueItem(index, incarnation, None, false)
  }

  /** The B-tree of `multiVersionItem`, keyed by transaction index. */
  type Item = map<nat, ValueItem>

  predicate WellIndexed(item: Item) {
    forall i :: i in item ==> item[i].index == i
  }

  /** `GetLatestBeforeIndex`: the first hit when descending from `index - 1`. */
  function LatestBefore(item: Item, index: nat): Option<ValueItem> {
    if index == 0 then None
    else if index - 1 in item then Some(item[index - 1])
    else LatestBefore(item, index - 1)
  }

  /** It is the version with the greatest index below `index`, and absent exactly when none is there. */
  lemma {:induction false} LatestBeforeIsGreatest(item: Item, index: nat)
    ensures LatestBefore(item, index).None? <==> forall j :: 0 <= j < index ==> j !in item
    ensures LatestBefore(item, index).Some? ==>
              exists j :: 0 <= j < index && j in item && LatestBefore(item, index).value == item[j]
                          && forall m :: j < m < index ==> m !in item
  {
    if index > 0 { LatestBeforeIsGreatest(item, index - 1); }
  }

  /** `GetLatestNonEstimate` restricted to indices below `bound`: descend, passing over estimates. */
  function LatestFinalBefore(item: Item, bound: nat): Option<ValueItem> {
    if bound == 0 then None
    else if bound - 1 in item && !item[bound - 1].IsEstimate() then Some(item[bound - 1])
    else LatestFinalBefore(item, bound - 1)
  }

  predicate Bounded(item: Item, bound: nat) {
    forall i :: i in item ==> i < bound
  }

  lemma {:induction false} HasBound(item: Item)
    ensures exists b: nat :: Bounded(item, b)
    decreases item.Keys
  {
    if item == map[] {
      assert Bounded(item, 0);
    } else {
      var i :| i in item;
      HasBound(item - {i});
      var b: nat :| Bounded(item - {i}, b);
      var c := if i < b then b else i + 1;
      assert Bounded(item, c) by {
        forall j | j in item ensures j < c { if j != i { assert j in item - {i}; } }
      }
    }
  }

  ghost function BoundOf(item: Item): (b: nat)
    ensures Bounded(item, b)
  {
    HasBound(item);
    var b: nat :| Bounded(item, b); b
  }

  /** `GetLatest`: the B-tree's maximum. */
  ghost function Latest(item: Item): Option<ValueItem> {
    LatestBefore(item, BoundOf(item))
  }

  /** `GetLatestNonEstimate`. */
  ghost function LatestFinal(item: Item): Option<ValueItem> {
    LatestFinalBefore(item, BoundOf(item))
  }

  /** The full-range queries do not depend on the bound used to state them. */
  lemma {:induction false} LatestAnyBound(item: Item, b: nat)
    requires Bounded(item, b)
    ensures LatestBefore(item, b) == Latest(item)
    ensures LatestFinalBefore(item, b) == LatestFinal(item)
  {
    BoundIrrelevant(item, b, b + BoundOf(item));
    BoundIrrelevant(item, BoundOf(item), b + BoundOf(item));
  }

  /** j is the greatest index that holds a version, not counting estimates. */
  ghost predicate GreatestFinal(item: Item, j: nat) {
    j in item && !item[j].IsEstimate() && forall m :: m in item && j < m ==> item[m].IsEstimate()
  }

  ghost predicate OnlyEstimates(item: Item) {
    forall j :: j in item ==> item[j].IsEstimate()
  }

  /** It passes over estimates, however many, to the newest other version, and is absent exactly when there is none. */
  lemma LatestFinalExact(item: Item, v: ValueItem)
    ensures LatestFinal(item) == Some(v) <==> exists j: nat :: GreatestFinal(item, j) && item[j] == v
    ensures LatestFinal(item).None? <==> OnlyEstimates(item)
  {
    LatestFinalBelow(item, BoundOf(item));
    if j: nat :| GreatestFinal(item, j) && item[j] == v {
      assert LatestFinal(item).Some?;
      var i: nat :| GreatestFinal(item, i) && LatestFinal(item) == Some(item[i]);
      assert i == j;
    }
  }

  lemma {:induction false} LatestFinalBelow(item: Item, bound: nat)
    requires forall m :: m in item && m >= bound ==> item[m].IsEstimate()
    ensures LatestFinalBefore(item, bound).None? <==> OnlyEstimates(item)
    ensures LatestFinalBefore(item, bound).Some? ==>
              exists j: nat :: GreatestFinal(item, j) && LatestFinalBefore(item, bound) == Some(item[j])
  {
    if bound > 0 {
      if bound - 1 in item && !item[bound - 1].IsEstimate() {
        assert GreatestFinal(item, bound - 1);
      } else {
        LatestFinalBelow(item, bound - 1);
      }
    }
  }

  /** The full-range query gives the version with the greatest index, and none exactly when there are no versions. */
  lemma LatestExact(item: Item, v: ValueItem)
    ensures Latest(item) == Some(v) <==> exists j: nat :: j in item && item[j] == v && Bounded(item, j + 1)
    ensures Latest(item).None? <==> item == map[]
  {
    var b := BoundOf(item);
    LatestBeforeIsGreatest(item, b);
    if j: nat :| j in item && item[j] == v && Bounded(item, j + 1) { LatestAnyBound(item, j + 1); }
    if Latest(item).Some? {
      var j :| 0 <= j < b && j in item && Latest(item).value == item[j] && forall m :: j < m < b ==> m !in item;
      assert Bounded(item, j + 1);
    }
    if item != map[] {
      var j :| j in item;
      assert j < b;
    }
  }

  lemma {:induction false} BoundIrrelevant(item: Item, b: nat, c: nat)
    requires Bounded(item, b) && b <= c
    ensures LatestBefore(item, b) == LatestBefore(item, c)
    ensures LatestFinalBefore(item, b) == LatestFinalBefore(item, c)
    decreases c
  {
    if b < c { BoundIrrelevant(item, b, c - 1); }
  }

  /** A write at an index not below `index` is invisible to a query before `index`. */
  lemma {:induction false} LatestBeforeFrame(a: Item, b: Item, index: nat)
    requires forall j :: 0 <= j < index ==> (j in a <==> j in b) && (j in a ==> a[j] == b[j])
    ensures LatestBefore(a, index) == LatestBefore(b, index)
  {
    if index > 0 { LatestBeforeFrame(a, b, index - 1); }
  }

  // ----- The slice-backed item -----

  type Slots = seq<Option<ValueItem>>

  /** The versions a slice holds, as an ordered map. */
  function Versions(slots: Slots): (item: Item)
    ensures forall i :: i in item <==> 0 <= i < |slots| && slots[i].Some?
    ensures forall i :: i in item ==> item[i] == slots[i].value
  {
    map i: nat | 0 <= i < |slots| && slots[i].Some? :: slots[i].value
  }

  /** The slots whose items were stored under an index below `index`: a clamped item need not be one. */
  function Earlier(slots: Slots, index: nat): (item: Item)
    ensures forall i :: i in item <==> 0 <= i < |slots| && slots[i].Some? && slots[i].value.index < index
    ensures forall i :: i in item ==> item[i] == slots[i].value
  {
    map i | i in Versions(slots) && Versions(slots)[i].index < index :: Versions(slots)[i]
  }

  /** `multiVersionListItem`. */
  class ListItem {
    var valueList: Slots

    /** Slot i holds only items of index i: the invariant of in-range use. */
    ghost predicate Valid() reads this {
      WellIndexed(Versions(valueList))
    }

    constructor (size: nat)
      ensures Valid() && |valueList| == size && Versions(valueList) == map[]
    {
      valueList := seq(size, _ => None);
    }

    method GetLatest() returns (r: Option<ValueItem>)
      ensures r == Latest(Versions(valueList))
    {
      var i := 0;
      LatestAnyBound(Versions(valueList), |valueList|);
      while i < |valueList|
        invariant 0 <= i <= |valueList|
        invariant LatestBefore(Versions(valueList), |valueList|) == LatestBefore(Versions(valueList), |valueList| - i)
      {
        var item := valueList[|valueList| - i - 1];
        if item.Some? { return item; }
        i := i + 1;
      }
      return None;
    }

    method GetLatestNonEstimate() returns (r: Option<ValueItem>)
      ensures r == LatestFinal(Versions(valueList))
      ensures r.None? <==> OnlyEstimates(Versions(valueList))
      ensures r.Some? ==> exists j: nat :: GreatestFinal(Versions(valueList), j) && Versions(valueList)[j] == r.value
    {
      LatestFinalBelow(Versions(valueList), |valueList|);
      var i := 0;
      LatestAnyBound(Versions(valueList), |valueList|);
      while i < |valueList|
        invariant 0 <= i <= |valueList|
        invariant LatestFinalBefore(Versions(valueList), |valueList|)
               == LatestFinalBefore(Versions(valueList), |valueList| - i)
      {
        var item := valueList[|valueList| - i - 1];
        if item.Some? && !item.value.IsEstimate() { return item; }
        i := i + 1;
      }
      return None;
    }

    /** Below the length, the newest earlier slot whose item says it is earlier too: in in-range use the newest earlier
        version. At or beyond the length the source answers "not found". */
    method GetLatestBeforeIndex(index: nat) returns (r: Option<ValueItem>)
      ensures r == if index < |valueList| then LatestBefore(Earlier(valueList, index), index) else None
      ensures Valid() && index < |valueList| ==> r == LatestBefore(Versions(valueList), index)
    {
      if index >= |valueList| { return None; }
      r := ScanDown(index);
    }

    /** Grows the slice when the index is out of range, which changes no version and no answer. */
    method GetLatestBeforeIndexExpansion(index: nat) returns (r: Option<ValueItem>)
      modifies this
      ensures Versions(valueList) == old(Versions(valueList)) && old(valueList) <= valueList
      ensures |valueList| == |old(valueList)|
                             + if index < |old(valueList)| then 0 else 2 * (index + 1 - |old(valueList)|)
      ensures r == LatestBefore(Earlier(valueList, index), index)
      ensures Valid() ==> r == LatestBefore(Versions(valueList), index)
    {
      if index >= |valueList| {
        valueList := valueList + seq((index + 1 - |valueList|) * 2, _ => None);
      }
      r := ScanDown(index);
    }

    /** The shared backward loop of the two queries above. */
    method ScanDown(index: nat) returns (r: Option<ValueItem>)
      requires index < |valueList|
      ensures r == LatestBefore(Earlier(valueList, index), index)
      ensures Valid() ==> r == LatestBefore(Versions(valueList), index)
    {
      ghost var earlier := Earlier(valueList, index);
      if Valid() { LatestBeforeFrame(earlier, Versions(valueList), index); }
      var i := index - 1;
      while i >= 0
        invariant -1 <= i < index
        invariant LatestBefore(earlier, index) == LatestBefore(earlier, i + 1)
      {
        var item := valueList[i];
        if item.Some? && item.value.index < index { return item; }
        i := i - 1;
      }
      return None;
    }

    method Set(index: nat, incarnation: int, value: Bytes)
      requires |valueList| > 0
      modifies this
      ensures valueList == ApplyToSlots(old(valueList), SetValue(index, incarnation, value))
      ensures old(Valid()) && index < |valueList| ==>
                && Valid()
                && Versions(valueList) == old(Versions(valueList))[index := NewValueItem(index, incarnation, value)]
    {
      SetCommonValue(index, NewValueItem(index, incarnation, value));
    }

    method SetEstimate(index: nat, incarnation: int)
      requires |valueList| > 0
      modifies this
      ensures valueList == ApplyToSlots(old(valueList), SetEstimated(index, incarnation))
      ensures old(Valid()) && index < |valueList| ==>
                Valid() && Versions(valueList) == old(Versions(valueList))[index := NewEstimateItem(index, incarnation)]
    {
      SetCommonValue(index, NewEstimateItem(index, incarnation));
    }

    method SetCommonValue(index: nat, item: ValueItem)
      requires |valueList| > 0
      modifies this
      ensures valueList == old(valueList)[Clamp(index, |old(valueList)|) := Some(item)]
    {
      var i := index;
      if i >= |valueList| { i := |valueList| - 1; }
      valueList := valueList[i := Some(item)];
    }

    /** Unlike Set, a clamped deletion is also recorded under the clamped index. */
    method Delete(index: nat, incarnation: int)
      requires |valueList| > 0
      modifies this
      ensures valueList == ApplyToSlots(old(valueList), SetDeleted(index, incarnation))
      ensures old(Valid()) && index < |valueList| ==>
                Valid() && Versions(valueList) == old(Versions(valueList))[index := NewDeletedItem(index, incarnation)]
    {
      var i := index;
      if i >= |valueList| { i := |valueList| - 1; }
      SetCommonValue(i, NewDeletedItem(i, incarnation));
    }

    method Remove(index: nat)
      requires |valueList| > 0
      modifies this
      ensures valueList == ApplyToSlots(old(valueList), RemoveAt(index))
      ensures old(Valid()) && index < |valueList| ==>
                Valid() && Versions(valueList) == old(Versions(valueList)) - {index}
    {
      var i := index;
      if i >= |valueList| { i := |valueList| - 1; }
      valueList := valueList[i := None];
    }
  }

  /** Where the slice-backed item stores index `index`. */
  function Clamp(index: nat, size: nat): (i: nat)
    requires size > 0
    ensures i < size
  {
    if index >= size then size - 1 else index
  }

  // ----- Whole histories -----

  /** An update of a versioned key. */
  datatype Update =
    | SetValue(index: nat, incarnation: int, value: Bytes)
    | SetEstimated(index: nat, incarnation: int)
    | SetDeleted(index: nat, incarnation: int)
    | RemoveAt(index: nat)

  function ApplyToMap(item: Item, u: Update): Item {
    match u
    case SetValue(i, n, v) => item[i := NewValueItem(i, n, v)]
    case SetEstimated(i, n) => item[i := NewEstimateItem(i, n)]
    case SetDeleted(i, n) => item[i := NewDeletedItem(i, n)]
    case RemoveAt(i) => item - {i}
  }

  function ApplyToSlots(slots: Slots, u: Update): Slots
    requires |slots| > 0
  {
    var i := Clamp(u.index, |slots|);
    match u
    case SetValue(_, n, v) => slots[i := Some(NewValueItem(u.index, n, v))]
    case SetEstimated(_, n) => slots[i := Some(NewEstimateItem(u.index, n))]
    case SetDeleted(_, n) => slots[i := Some(NewDeletedItem(i, n))]
    case RemoveAt(_) => slots[i := None]
  }

  function RunMap(us: seq<Update>): Item {
    if us == [] then map[] else ApplyToMap(RunMap(us[..|us| - 1]), us[|us| - 1])
  }

  function RunSlots(us: seq<Update>, size: nat): (slots: Slots)
    requires size > 0
    ensures |slots| == size
  {
    if us == [] then seq(size, _ => None) else ApplyToSlots(RunSlots(us[..|us| - 1], size), us[|us| - 1])
  }

  /** The slice refines the ordered map over every history of in-range updates. */
  lemma {:induction false} SlotsRefineMap(us: seq<Update>, size: nat)
    requires size > 0 && forall i :: 0 <= i < |us| ==> us[i].index < size
    ensures Versions(RunSlots(us, size)) == RunMap(us)
    ensures WellIndexed(RunMap(us))
  {
    if us == [] {
      assert Versions(RunSlots(us, size)) == map[];
    } else {
      var p := us[..|us| - 1];
      SlotsRefineMap(p, size);
      var u := us[|us| - 1];
      assert u.index < size;
      assert Versions(RunSlots(us, size)) == ApplyToMap(Versions(RunSlots(p, size)), u);
    }
  }

  /** One update keeps the two forms equal exactly when its index is in range, or when it removes
      a version that is not there and finds the last slot empty. */
  lemma OutOfRangeUpdate(slots: Slots, u: Update)
    requires |slots| > 0
    ensures Versions(ApplyToSlots(slots, u)) == ApplyToMap(Versions(slots), u)
       <==> u.index < |slots| || (u.RemoveAt? && slots[|slots| - 1].None?)
  {
    var i := Clamp(u.index, |slots|);
    var after := Versions(ApplyToSlots(slots, u));
    if u.index < |slots| {
      assert after == ApplyToMap(Versions(slots), u);
    } else if u.RemoveAt? {
      assert i !in after;
      if slots[i].None? {
        assert after == Versions(slots) == Versions(slots) - {u.index};
      } else {
        assert i in ApplyToMap(Versions(slots), u);
      }
    } else {
      assert u.index !in after && u.index in ApplyToMap(Versions(slots), u);
    }
  }

  /** What a query from index q answers on a slice that has been made long enough for it. */
  function Seen(slots: Slots, q: nat): Option<ValueItem> {
    LatestBefore(Earlier(slots, q), q)
  }

  /** An update beyond the slice replaces what the last slot held. Later queries see a value or an estimate stored there
      only from beyond its own index, but a deletion from anywhere beyond the slice, also before its own index. */
  lemma ClampedUpdateSeen(slots: Slots, u: Update, q: nat)
    requires 0 < |slots| <= u.index && |slots| <= q
    ensures u.SetValue? ==>
              (Seen(ApplyToSlots(slots, u), q) == Some(ValueItem(u.index, u.incarnation, Some(u.value), false)) <==>
               u.index < q)
    ensures u.SetEstimated? ==>
              (Seen(ApplyToSlots(slots, u), q) == Some(ValueItem(u.index, u.incarnation, None, true)) <==> u.index < q)
    ensures u.SetDeleted? ==>
              Seen(ApplyToSlots(slots, u), q) == Some(ValueItem(|slots| - 1, u.incarnation, None, false))
    ensures u.RemoveAt? || (!u.SetDeleted? && q <= u.index) ==>
              Seen(ApplyToSlots(slots, u), q) == LatestBefore(Earlier(slots, q), |slots| - 1)
  {
    var after, last := ApplyToSlots(slots, u), |slots| - 1;
    var e := Earlier(after, q);
    SeenFromLast(e, |slots|, q);
    assert LatestBefore(e, |slots|) == if last in e then Some(e[last]) else LatestBefore(e, last);
    LatestBeforeFrame(e, Earlier(slots, q), last);
    LatestBeforeIsGreatest(e, last);
    if last !in e && LatestBefore(e, last).Some? {
      var j :| 0 <= j < last && j in e && LatestBefore(e, last).value == e[j];
      assert e[j].index < q;
    }
  }

  lemma {:induction false} SeenFromLast(item: Item, n: nat, q: nat)
    requires Bounded(item, n) && n <= q
    ensures LatestBefore(item, q) == LatestBefore(item, n)
    decreases q
  {
    if n < q { SeenFromLast(item, n, q - 1); }
  }
}

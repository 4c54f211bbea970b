/** What the parser refuses: messages cut short anywhere but between entries, and fields that are not what they should
    be. */
module KvRefused {
  import opened Bytes
  import opened Varint
  import opened Words
  import opened Kv
  import opened KvParser
  import opened KvUnknown

  // ---------- cut short ----------

  /** From i on, the data is a proper beginning of `whole`, perhaps nothing of it. */
  predicate Breaks(data: Bytes, i: nat, whole: Bytes) {
    i <= |data| && data[i..] <= whole && i + |whole| > |data|
  }

  lemma BreaksSplit(data: Bytes, i: nat, a: Bytes, b: Bytes)
    requires Breaks(data, i, a + b)
    ensures Breaks(data, i, a) || (HoldsAt(data, i, a) && Breaks(data, i + |a|, b))
  {
    var rest := data[i..];
    if |rest| < |a| {
      assert forall j :: 0 <= j < |rest| ==> rest[j] == (a + b)[j];
      assert rest == a[..|rest|];
    } else {
      assert rest[..|a|] == a && data[i..i + |a|] == rest[..|a|];
      assert data[i + |a|..] == rest[|a|..] && (a + b)[|a|..] == b;
      assert forall j :: 0 <= j < |rest| - |a| ==> rest[|a|..][j] == b[j];
    }
  }

  lemma BreaksLength(data: Bytes, i: nat, a: Bytes, b: Bytes)
    requires Breaks(data, i, a + b)
    ensures |a + b| == |a| + |b|
  {
  }

  lemma {:induction false} CutGroups(data: Bytes, i: nat, n: nat, count: nat)
    requires Breaks(data, i, Uvarint(n)) && count + |Uvarint(n)| <= MAX_GROUPS
    ensures ReadGroups(data, i, count) == Bad(UnexpectedEOF)
    decreases n
  {
    if i < |data| {
      assert data[i] == data[i..][0] == Uvarint(n)[0];
      if n >= 128 {
        var tail := Uvarint(n / 128);
        assert data[i + 1..] == data[i..][1..] && Uvarint(n)[1..] == tail;
        assert data[i + 1..] <= tail;
        CutGroups(data, i + 1, n / 128, count + 1);
      }
    }
  }

  lemma CutVarint(data: Bytes, i: nat, n: nat)
    requires Breaks(data, i, Uvarint(n)) && n < TWO_64
    ensures ReadVarint(data, i) == Bad(UnexpectedEOF)
  {
    TenGroups();
    UvarintShort(n, MAX_GROUPS);
    CutGroups(data, i, n, 0);
  }

  /** A skip that runs out of data: it reports so, or ends beyond the data. */
  predicate RunsOut(data: Bytes, r: Res<nat>, end: nat) {
    r == Bad(UnexpectedEOF) || (r == Good(end) && end > |data|)
  }

  lemma CutTag(data: Bytes, i: nat, num: nat, wireType: nat)
    requires wireType < 8 && num <= MAX_FIELD && Breaks(data, i, EncTag(num, wireType))
    ensures ReadVarint(data, i) == Bad(UnexpectedEOF)
  {
    CutVarint(data, i, 8 * num + wireType);
  }

  /** One element of the walk over a field without nesting. */
  lemma CutLeaf(data: Bytes, i: nat, f: Field, depth: nat)
    requires WellFormed(f) && !f.Group? && Breaks(data, i, EncUnknown(f)) && i + |EncUnknown(f)| < TWO_63
    ensures || SkipOne(data, i, depth) == Bad(UnexpectedEOF)
            || SkipOne(data, i, depth) == Good(Walk(i + |EncUnknown(f)|, depth))
  {
    var tag := EncTag(f.num, WireType(f));
    BreaksSplit(data, i, tag, EncBody(f));
    if Breaks(data, i, tag) {
      CutTag(data, i, f.num, WireType(f));
    } else {
      ReadsWire(data, i, f.num, WireType(f));
      var w := Num(8 * f.num + WireType(f), i + |tag|);
      match f
      case VarintField(_, value) => CutVarint(data, w.next, value);
      case Fixed64(_, bytes) =>
      case Sized(_, bytes) => CutSized(data, i, w, bytes, depth);
      case Fixed32(_, bytes) =>
    }
  }

  lemma CutSized(data: Bytes, i: nat, w: Num, bytes: Bytes, depth: nat)
    requires ReadVarint(data, i) == Good(w) && w.value % 8 == 2 && Breaks(data, w.next, Uvarint(|bytes|) + bytes)
    requires w.next + |Uvarint(|bytes|)| + |bytes| < TWO_63
    ensures var r := SkipOne(data, i, depth);
            r == Bad(UnexpectedEOF) || r == Good(Walk(w.next + |Uvarint(|bytes|)| + |bytes|, depth))
  {
    BreaksSplit(data, w.next, Uvarint(|bytes|), bytes);
    if Breaks(data, w.next, Uvarint(|bytes|)) {
      CutVarint(data, w.next, |bytes|);
    } else {
      ReadsLength(data, w.next, |bytes|);
    }
  }

  lemma {:induction false} CutField(data: Bytes, i: nat, f: Field, depth: nat)
    requires FitsInt(data) && WellFormed(f) && Breaks(data, i, EncUnknown(f)) && i + |EncUnknown(f)| < TWO_63
    ensures RunsOut(data, SkipFrom(data, i, depth), i + |EncUnknown(f)|)
    ensures depth > 0 ==> SkipFrom(data, i, depth) == Bad(UnexpectedEOF)
    decreases f
  {
    if i < |data| {
      if f.Group? {
        CutGroup(data, i, f.num, f.fields, depth);
      } else {
        CutLeaf(data, i, f, depth);
      }
    }
  }

  lemma GroupBreaks(data: Bytes, i: nat, num: nat, fs: Fields)
    requires Breaks(data, i, EncUnknown(Group(num, fs)))
    ensures var tag, rest := EncTag(num, 3), EncFields(fs) + EncTag(num, 4);
            && |EncUnknown(Group(num, fs))| == |tag| + |rest|
            && (Breaks(data, i, tag) || (HoldsAt(data, i, tag) && Breaks(data, i + |tag|, rest)))
  {
    GroupIs(num, fs);
    hide *;
    BreaksSplit(data, i, EncTag(num, 3), EncFields(fs) + EncTag(num, 4));
  }

  lemma StepEnds(data: Bytes, i: nat, depth: nat)
    requires ReadVarint(data, i) == Bad(UnexpectedEOF)
    ensures SkipFrom(data, i, depth) == Bad(UnexpectedEOF)
  {
  }

  lemma StepOpens(data: Bytes, i: nat, depth: nat, next: nat)
    requires SkipOne(data, i, depth) == Good(Walk(next, depth + 1)) && i < |data| && next < TWO_63
    ensures SkipFrom(data, i, depth) == SkipFrom(data, next, depth + 1)
  {
  }

  lemma {:induction false} CutGroup(data: Bytes, i: nat, num: nat, fs: Fields, depth: nat)
    requires FitsInt(data) && 1 <= num <= MAX_FIELD && AllWellFormed(fs) && i < |data|
    requires Breaks(data, i, EncUnknown(Group(num, fs))) && i + |EncUnknown(Group(num, fs))| < TWO_63
    ensures SkipFrom(data, i, depth) == Bad(UnexpectedEOF)
    decreases fs, 1
  {
    hide *;
    var tag := EncTag(num, 3);
    GroupBreaks(data, i, num, fs);
    if Breaks(data, i, tag) {
      CutTag(data, i, num, 3);
      StepEnds(data, i, depth);
    } else {
      WalksStart(data, i, num, depth);
      StepOpens(data, i, depth, i + |tag|);
      CutFields(data, i + |tag|, num, fs, depth + 1);
    }
  }

  lemma {:induction false} CutFields(data: Bytes, i: nat, num: nat, fs: Fields, depth: nat)
    requires FitsInt(data) && 1 <= num <= MAX_FIELD && AllWellFormed(fs) && depth > 0
    requires Breaks(data, i, EncFields(fs) + EncTag(num, 4)) && i + |EncFields(fs) + EncTag(num, 4)| < TWO_63
    ensures SkipFrom(data, i, depth) == Bad(UnexpectedEOF)
    decreases fs, 0
  {
    if i < |data| {
      match fs
      case End =>
        assert EncFields(fs) + EncTag(num, 4) == EncTag(num, 4);
        CutTag(data, i, num, 4);
      case More(head, tail) =>
        var rest := EncFields(tail) + EncTag(num, 4);
        assert EncFields(fs) + EncTag(num, 4) == EncUnknown(head) + rest;
        hide EncUnknown, EncFields, EncTag, SkipFrom, Breaks, HoldsAt;
        BreaksLength(data, i, EncUnknown(head), rest);
        BreaksSplit(data, i, EncUnknown(head), rest);
        if Breaks(data, i, EncUnknown(head)) {
          CutField(data, i, head, depth);
        } else {
          PassesField(data, i, head, depth);
          CutFields(data, i + |EncUnknown(head)|, num, tail, depth);
        }
    }
  }

  /** A whole field inside a group is passed. */
  lemma PassesField(data: Bytes, i: nat, f: Field, depth: nat)
    requires FitsInt(data) && WellFormed(f) && HoldsAt(data, i, EncUnknown(f)) && depth > 0
    ensures SkipFrom(data, i, depth) == SkipFrom(data, i + |EncUnknown(f)|, depth)
  {
    hide SkipFrom, EncUnknown, ShapeOf, Fits, WellFormed, Size, StepOf;
    SkipIsWalk(data, i, depth);
    SkipIsWalk(data, i + |EncUnknown(f)|, depth);
    EncodedFits(data, i, f);
    SizeIsLength(f);
    WalksShape(StepOf(data), |data|, i, ShapeOf(f), depth);
  }

  lemma CutSkip(data: Bytes, i: nat, f: Field)
    requires FitsInt(data) && WellFormed(f) && Breaks(data, i, EncUnknown(f)) && i + |EncUnknown(f)| < TWO_63
    ensures SkipField(data, i) == Bad(UnexpectedEOF)
  {
    var rest := data[i..];
    assert rest[0..] == rest && Breaks(rest, 0, EncUnknown(f));
    hide SkipFrom;
    CutField(rest, 0, f, 0);
  }

  /** An entry or an unknown field that breaks off. */
  lemma CutElement(data: Bytes, i: nat, e: Element, acc: seq<Pair>)
    requires FitsInt(data) && GoodElement(e) && i < |data|
    requires Breaks(data, i, EncElement(e)) && i + |EncElement(e)| < TWO_63
    ensures ParsePairs(data, i, acc) == Bad(UnexpectedEOF)
  {
    var f := ElementField(e);
    var tag := EncTag(f.num, WireType(f));
    assert WellFormed(f);
    BreaksSplit(data, i, tag, EncBody(f));
    if Breaks(data, i, tag) {
      CutTag(data, i, f.num, WireType(f));
    } else {
      ReadsForeignTag(data, i, f);
      if e.Known? { CutSpan(data, i + |tag|, EncParts(e.parts)); } else { CutSkip(data, i, f); }
    }
  }

  lemma CutSpan(data: Bytes, i: nat, body: Bytes)
    requires Breaks(data, i, Uvarint(|body|) + body) && i + |Uvarint(|body|)| + |body| < TWO_63
    ensures ReadSpan(data, i) == Bad(UnexpectedEOF)
  {
    BreaksSplit(data, i, Uvarint(|body|), body);
    if Breaks(data, i, Uvarint(|body|)) { CutVarint(data, i, |body|); } else { ReadsLength(data, i, |body|); }
  }

  lemma {:induction false} ConcatSnoc<T>(enc: T -> Bytes, xs: seq<T>, k: nat)
    requires k < |xs|
    ensures Concat(enc, xs[..k + 1]) == Concat(enc, xs[..k]) + enc(xs[k])
    decreases k
  {
    var a, b := xs[..k], xs[..k + 1];
    if k > 0 {
      ConcatSnoc(enc, xs[1..], k - 1);
      assert xs[1..][..k] == b[1..] && xs[1..][..k - 1] == a[1..];
      assert Concat(enc, b) == enc(xs[0]) + (Concat(enc, a[1..]) + enc(xs[k]));
    } else {
      assert b == [xs[0]] && b[1..] == [];
    }
  }

  lemma ElementsSnoc(es: seq<Element>, k: nat)
    requires k < |es|
    ensures EncElements(es[..k + 1]) == EncElements(es[..k]) + EncElement(es[k])
    ensures PairsOf(es[..k + 1]) == Read(PairsOf(es[..k]), es[k])
  {
    ConcatSnoc(EncElement, es, k);
    assert es[..k + 1][..k] == es[..k];
  }

  lemma PartsSnoc(parts: seq<Part>, k: nat)
    requires k < |parts|
    ensures EncParts(parts[..k + 1]) == EncParts(parts[..k]) + EncPart(parts[k])
    ensures PairOf(parts[..k + 1]) == Updated(PairOf(parts[..k]), parts[k])
  {
    ConcatSnoc(EncPart, parts, k);
    assert parts[..k + 1][..k] == parts[..k];
  }

  /** The first k elements are parsed, whatever follows. */
  lemma {:induction false} ParsesThrough(data: Bytes, es: seq<Element>, k: nat)
    requires FitsInt(data) && k <= |es| && HoldsAt(data, 0, EncElements(es[..k]))
    requires forall n :: 0 <= n < |es| ==> GoodElement(es[n])
    ensures ParsePairs(data, 0, []) == ParsePairs(data, |EncElements(es[..k])|, PairsOf(es[..k]))
    decreases k
  {
    hide ParsePairs;
    if k > 0 {
      hide *;
      var before := EncElements(es[..k - 1]);
      ElementsSnoc(es, k - 1);
      HoldsSplit(data, 0, before, EncElement(es[k - 1]));
      ParsesThrough(data, es, k - 1);
      ParsesElement(data, |before|, es[k - 1], PairsOf(es[..k - 1]));
    }
  }

  /** A message that breaks off inside its k-th element is refused as ending unexpectedly. */
  lemma CutInside(es: seq<Element>, k: nat, data: Bytes)
    requires FitsInt(EncElements(es)) && k < |es| && forall n :: 0 <= n < |es| ==> GoodElement(es[n])
    requires data <= EncElements(es) && |EncElements(es[..k])| < |data| < |EncElements(es[..k + 1])|
    ensures ParsePairs(data, 0, []) == Bad(UnexpectedEOF)
  {
    hide EncElement, GoodElement, ParsePairs, PairsOf;
    var before, e := EncElements(es[..k]), es[k];
    ConcatSnoc(EncElement, es, k);
    ElementsPrefix(es, k + 1);
    var i := |before|;
    assert data <= before + EncElement(e);
    assert data[..i] == before && data[0..0 + i] == data[..i];
    assert data[i..] <= EncElement(e);
    ParsesThrough(data, es, k);
    CutElement(data, i, e, PairsOf(es[..k]));
  }

  lemma {:induction false} ElementsPrefix(es: seq<Element>, k: nat)
    requires k <= |es|
    ensures EncElements(es[..k]) <= EncElements(es)
    decreases |es| - k
  {
    hide EncElement;
    if k < |es| {
      ConcatSnoc(EncElement, es, k);
      ElementsPrefix(es, k + 1);
    } else {
      assert es[..k] == es;
    }
  }

  /** Some beginning of the elements is this long. */
  ghost predicate Between(es: seq<Element>, n: nat, k: nat) {
    k <= |es| && n == |EncElements(es[..k])|
  }

  /** The beginning of a message is accepted exactly when it ends between two elements, and is then read as those before
      the cut. */
  lemma CutExact(es: seq<Element>, data: Bytes)
    requires FitsInt(EncElements(es)) && data <= EncElements(es) && forall n :: 0 <= n < |es| ==> GoodElement(es[n])
    ensures ParsePairs(data, 0, []).Good? <==> exists k: nat :: Between(es, |data|, k)
    ensures forall k: nat :: Between(es, |data|, k) ==> ParsePairs(data, 0, []) == Good(PairsOf(es[..k]))
    ensures ParsePairs(data, 0, []).Bad? ==> ParsePairs(data, 0, []) == Bad(UnexpectedEOF)
  {
    hide ParsePairs, EncElements, GoodElement, PairsOf;
    forall k: nat | Between(es, |data|, k) ensures ParsePairs(data, 0, []) == Good(PairsOf(es[..k])) {
      ElementsPrefix(es, k);
      assert data == EncElements(es[..k]);
      UnknownFieldsIgnored(es[..k]);
    }
    if forall k: nat :: !Between(es, |data|, k) {
      var k := FindCut(es, |data|);
      CutInside(es, k, data);
    }
  }

  lemma {:induction false} FindCut(es: seq<Element>, n: nat) returns (k: nat)
    requires n <= |EncElements(es)| && forall k: nat :: !Between(es, n, k)
    ensures k < |es| && |EncElements(es[..k])| < n < |EncElements(es[..k + 1])|
  {
    hide EncElement;
    k := 0;
    assert es[..0] == [] && !Between(es, n, 0);
    while k + 1 <= |es| && |EncElements(es[..k + 1])| < n
      invariant k <= |es| && |EncElements(es[..k])| < n
    {
      k := k + 1;
    }
    assert es[..|es|] == es;
    if k < |es| { assert !Between(es, n, k + 1); }
  }

  // ---------- bad fields ----------

  /** What is wrong with a tag where fields 1 to `known` are length-delimited; None if nothing is. */
  function TagError(num: nat, wireType: nat, known: nat): Option<Error> {
    if wireType == 4 then Some(EndGroupTag)
    else if num == 0 then Some(IllegalTag)
    else if num <= known && wireType != 2 then Some(WrongWireType)
    else if num > known && wireType > 5 then Some(IllegalWireType)
    else None
  }

  lemma ReadsAnyTag(data: Bytes, i: nat, num: nat, wireType: nat)
    requires wireType < 8 && num <= MAX_FIELD && HoldsAt(data, i, EncTag(num, wireType))
    ensures ReadTag(data, i)
         == if wireType == 4 then Bad(EndGroupTag)
            else if num == 0 then Bad(IllegalTag)
            else Good(Tag(num, wireType, i + |EncTag(num, wireType)|))
  {
    ReadsWire(data, i, num, wireType);
    TagSplits(num, wireType);
  }

  lemma SkipsNoSuchType(data: Bytes, i: nat, num: nat, wireType: nat)
    requires 5 < wireType < 8 && num <= MAX_FIELD && HoldsAt(data, i, EncTag(num, wireType)) && FitsInt(data)
    ensures SkipField(data, i) == Bad(IllegalWireType)
  {
    var rest := data[i..];
    assert rest[0..0 + |EncTag(num, wireType)|] == data[i..i + |EncTag(num, wireType)|];
    TagNotEmpty(num, wireType);
    ReadsWire(rest, 0, num, wireType);
  }

  /** An end-group tag with no group open is refused where fields are skipped. */
  lemma LoneEndGroupRefused(num: nat, rest: Bytes)
    requires num <= MAX_FIELD
    ensures SkipFrom(EncTag(num, 4) + rest, 0, 0) == Bad(UnexpectedEndOfGroup)
  {
    var data := EncTag(num, 4) + rest;
    TagNotEmpty(num, 4);
    HoldsAll(data);
    HoldsSplit(data, 0, EncTag(num, 4), rest);
    hide EncTag;
    ReadsWire(data, 0, num, 4);
  }

  lemma BadTagStops(data: Bytes, i: nat, num: nat, wireType: nat, acc: seq<Pair>, p: Pair)
    requires FitsInt(data) && wireType < 8 && num <= MAX_FIELD && HoldsAt(data, i, EncTag(num, wireType))
    ensures TagError(num, wireType, 1).Some? ==> ParsePairs(data, i, acc) == Bad(TagError(num, wireType, 1).value)
    ensures TagError(num, wireType, 2).Some? ==> ParsePair(data, i, p) == Bad(TagError(num, wireType, 2).value)
  {
    hide SkipField, ReadSpan;
    TagNotEmpty(num, wireType);
    ReadsAnyTag(data, i, num, wireType);
    if wireType > 5 { SkipsNoSuchType(data, i, num, wireType); }
  }

  /** After any good elements, a field with a bad tag makes the whole message refused, for the reason stated. */
  lemma BadFieldRefused(es: seq<Element>, num: nat, wireType: nat, rest: Bytes)
    requires wireType < 8 && num <= MAX_FIELD && TagError(num, wireType, 1).Some?
    requires forall n :: 0 <= n < |es| ==> GoodElement(es[n])
    requires FitsInt(EncElements(es) + (EncTag(num, wireType) + rest))
    ensures ParsePairs(EncElements(es) + (EncTag(num, wireType) + rest), 0, []) == Bad(TagError(num, wireType, 1).value)
  {
    hide ParsePairs, EncElements, GoodElement, PairsOf, EncTag;
    var before, tag := EncElements(es), EncTag(num, wireType);
    var data := before + (tag + rest);
    HoldsAll(data);
    HoldsThree(data, 0, before, tag, rest);
    assert es[..|es|] == es;
    ParsesThrough(data, es, |es|);
    BadTagStops(data, |before|, num, wireType, PairsOf(es), Pair([], []));
  }

  /** The same inside an entry. */
  lemma BadPartRefused(parts: seq<Part>, num: nat, wireType: nat, rest: Bytes)
    requires wireType < 8 && num <= MAX_FIELD && TagError(num, wireType, 2).Some?
    requires forall n :: 0 <= n < |parts| ==> GoodPart(parts[n])
    requires FitsInt(EncParts(parts) + (EncTag(num, wireType) + rest))
    ensures ParsePair(EncParts(parts) + (EncTag(num, wireType) + rest), 0, Pair([], []))
         == Bad(TagError(num, wireType, 2).value)
  {
    hide ParsePair, EncParts, GoodPart, PairOf, EncTag;
    var before, tag := EncParts(parts), EncTag(num, wireType);
    var data := before + (tag + rest);
    HoldsAll(data);
    HoldsThree(data, 0, before, tag, rest);
    assert parts[..|parts|] == parts;
    PartsThrough(data, parts, |parts|);
    BadTagStops(data, |before|, num, wireType, [], PairOf(parts));
  }

  /** A tag whose number does not come out positive once kept to a signed 32-bit number. */
  predicate IllegalNumber(wire: nat) {
    wire % 8 != 4 && (wire / 8 % TWO_32 == 0 || wire / 8 % TWO_32 >= TWO_32 / 2)
  }

  lemma IllegalTagStops(data: Bytes, i: nat, wire: nat, acc: seq<Pair>, p: Pair)
    requires FitsInt(data) && wire < TWO_64 && IllegalNumber(wire) && HoldsAt(data, i, Uvarint(wire))
    ensures ParsePairs(data, i, acc) == Bad(IllegalTag) && ParsePair(data, i, p) == Bad(IllegalTag)
  {
    hide SkipField, ReadSpan, ReadVarint, Uvarint;
    ReadsLength(data, i, wire);
  }

  /** After any good elements, such a tag is refused, however large the number it was written with. */
  lemma IllegalNumberRefused(es: seq<Element>, wire: nat, rest: Bytes)
    requires wire < TWO_64 && IllegalNumber(wire) && forall n :: 0 <= n < |es| ==> GoodElement(es[n])
    requires FitsInt(EncElements(es) + (Uvarint(wire) + rest))
    ensures ParsePairs(EncElements(es) + (Uvarint(wire) + rest), 0, []) == Bad(IllegalTag)
  {
    hide *;
    var data := EncElements(es) + (Uvarint(wire) + rest);
    HoldsAll(data);
    HoldsThree(data, 0, EncElements(es), Uvarint(wire), rest);
    assert es[..|es|] == es;
    ParsesThrough(data, es, |es|);
    IllegalTagStops(data, |EncElements(es)|, wire, PairsOf(es), Pair([], []));
  }

  lemma {:induction false} PartsThrough(data: Bytes, parts: seq<Part>, k: nat)
    requires FitsInt(data) && k <= |parts| && HoldsAt(data, 0, EncParts(parts[..k]))
    requires forall n :: 0 <= n < |parts| ==> GoodPart(parts[n])
    ensures ParsePair(data, 0, Pair([], [])) == ParsePair(data, |EncParts(parts[..k])|, PairOf(parts[..k]))
    decreases k
  {
    hide ParsePair;
    if k > 0 {
      hide *;
      var before := EncParts(parts[..k - 1]);
      PartsSnoc(parts, k - 1);
      HoldsSplit(data, 0, before, EncPart(parts[k - 1]));
      PartsThrough(data, parts, k - 1);
      ParsesPart(data, |before|, parts[k - 1], PairOf(parts[..k - 1]));
    }
  }

  /** An entry that is refused makes the message refused for the same reason. */
  lemma BadEntryRefused(es: seq<Element>, body: Bytes, rest: Bytes, e: Error)
    requires ParsePair(body, 0, Pair([], [])) == Bad(e) && forall n :: 0 <= n < |es| ==> GoodElement(es[n])
    requires FitsInt(EncElements(es) + (EncUnknown(Sized(1, body)) + rest))
    ensures ParsePairs(EncElements(es) + (EncUnknown(Sized(1, body)) + rest), 0, []) == Bad(e)
  {
    hide EncElements, GoodElement, PairsOf, EncUnknown, ParsePair;
    var before, field := EncElements(es), EncUnknown(Sized(1, body));
    var data := before + (field + rest);
    HoldsAll(data);
    HoldsThree(data, 0, before, field, rest);
    assert es[..|es|] == es;
    ParsesThrough(data, es, |es|);
    SizedIsDelimited(1, body);
    var s := ReadsEntry(data, |before|, body);
    hide ReadTag, ReadSpan;
  }

  /** Why a length `n` read up to offset `at` is refused when it points past the end: where the sum does not fit
      an int64, Go sees a negative number. */
  function LengthError(at: nat, n: nat): Error {
    if at + n >= TWO_63 then InvalidLength else UnexpectedEOF
  }

  lemma SpanTooLong(data: Bytes, i: nat, n: nat)
    requires FitsInt(data) && n < TWO_64 && HoldsAt(data, i, Uvarint(n)) && i + |Uvarint(n)| + n > |data|
    ensures ReadSpan(data, i) == Bad(LengthError(i + |Uvarint(n)|, n))
  {
    ReadsLength(data, i, n);
    hide ReadVarint;
  }

  lemma SkipTooLong(data: Bytes, i: nat, num: nat, n: nat)
    requires FitsInt(data) && num <= MAX_FIELD && n < TWO_64
    requires HoldsAt(data, i, EncTag(num, 2)) && HoldsAt(data, i + |EncTag(num, 2)|, Uvarint(n))
    requires i + |EncTag(num, 2)| + |Uvarint(n)| + n > |data|
    ensures SkipField(data, i) == Bad(LengthError(i + |EncTag(num, 2)| + |Uvarint(n)|, n))
  {
    hide EncTag, Uvarint, ReadVarint;
    var rest, tag, length := data[i..], EncTag(num, 2), Uvarint(n);
    assert rest[0..0 + |tag|] == data[i..i + |tag|];
    assert rest[|tag|..|tag| + |length|] == data[i + |tag|..i + |tag| + |length|];
    TagNotEmpty(num, 2);
    ReadsWire(rest, 0, num, 2);
    ReadsLength(rest, |tag|, n);
  }

  lemma TooLongStops(data: Bytes, i: nat, num: nat, n: nat, acc: seq<Pair>, p: Pair)
    requires FitsInt(data) && 0 < num <= MAX_FIELD && n < TWO_64
    requires HoldsAt(data, i, EncTag(num, 2)) && HoldsAt(data, i + |EncTag(num, 2)|, Uvarint(n))
    requires i + |EncTag(num, 2)| + |Uvarint(n)| + n > |data|
    ensures ParsePairs(data, i, acc) == Bad(LengthError(i + |EncTag(num, 2)| + |Uvarint(n)|, n))
    ensures ParsePair(data, i, p) == Bad(LengthError(i + |EncTag(num, 2)| + |Uvarint(n)|, n))
  {
    hide EncTag, Uvarint, SkipField, ReadSpan, ReadTag;
    TagNotEmpty(num, 2);
    ReadsAnyTag(data, i, num, 2);
    SpanTooLong(data, i + |EncTag(num, 2)|, n);
    SkipTooLong(data, i, num, n);
  }

  lemma HoldsHeader(before: Bytes, tag: Bytes, length: Bytes, rest: Bytes)
    ensures var data := before + (tag + (length + rest));
            && HoldsAt(data, 0, before) && HoldsAt(data, |before|, tag) && HoldsAt(data, |before| + |tag|, length)
            && |data| == |before| + |tag| + |length| + |rest|
  {
    var data := before + (tag + (length + rest));
    HoldsAll(data);
    HoldsThree(data, 0, before, tag, length + rest);
    HoldsSplit(data, |before| + |tag|, length, rest);
  }

  /** After any good elements, a known or unknown field whose length goes past the end is refused, for the reason
      stated. */
  lemma TooLongRefused(es: seq<Element>, num: nat, n: nat, rest: Bytes)
    requires 0 < num <= MAX_FIELD && |rest| < n < TWO_64 && forall k :: 0 <= k < |es| ==> GoodElement(es[k])
    requires FitsInt(EncElements(es) + (EncTag(num, 2) + (Uvarint(n) + rest)))
    ensures ParsePairs(EncElements(es) + (EncTag(num, 2) + (Uvarint(n) + rest)), 0, [])
         == Bad(LengthError(|EncElements(es)| + |EncTag(num, 2)| + |Uvarint(n)|, n))
  {
    hide *;
    var before, tag := EncElements(es), EncTag(num, 2);
    var data := before + (tag + (Uvarint(n) + rest));
    HoldsHeader(before, tag, Uvarint(n), rest);
    assert es[..|es|] == es;
    ParsesThrough(data, es, |es|);
    TooLongStops(data, |before|, num, n, PairsOf(es), Pair([], []));
  }

  /** The same inside an entry. */
  lemma TooLongPartRefused(parts: seq<Part>, num: nat, n: nat, rest: Bytes)
    requires 0 < num <= MAX_FIELD && |rest| < n < TWO_64 && forall k :: 0 <= k < |parts| ==> GoodPart(parts[k])
    requires FitsInt(EncParts(parts) + (EncTag(num, 2) + (Uvarint(n) + rest)))
    ensures ParsePair(EncParts(parts) + (EncTag(num, 2) + (Uvarint(n) + rest)), 0, Pair([], []))
         == Bad(LengthError(|EncParts(parts)| + |EncTag(num, 2)| + |Uvarint(n)|, n))
  {
    hide *;
    var before, tag := EncParts(parts), EncTag(num, 2);
    var data := before + (tag + (Uvarint(n) + rest));
    HoldsHeader(before, tag, Uvarint(n), rest);
    assert parts[..|parts|] == parts;
    PartsThrough(data, parts, |parts|);
    TooLongStops(data, |before|, num, n, [], PairOf(parts));
  }

  /** What is read where n bytes with the high bit set come first: after ten of them an overflow, at the end of the
      data an early end, and otherwise the number its groups spell, kept to 64 bits. */
  lemma VarintExact(data: Bytes, i: nat, n: nat)
    requires n <= 10 && i + n <= |data| && forall j :: i <= j < i + n ==> data[j] >= 128
    ensures n == 10 ==> ReadVarint(data, i) == Bad(IntOverflow)
    ensures n < 10 && i + n == |data| ==> ReadVarint(data, i) == Bad(UnexpectedEOF)
    ensures n < 10 && i + n < |data| && data[i + n] < 128 ==>
              ReadVarint(data, i) == Good(Num(GroupsValue(data[i..i + n + 1]) % TWO_64, i + n + 1))
  {
    GroupsExact(data, i, n, 0);
  }

  lemma {:induction false} GroupsExact(data: Bytes, i: nat, n: nat, count: nat)
    requires count + n <= 10 && i + n <= |data| && forall j :: i <= j < i + n ==> data[j] >= 128
    ensures count + n == 10 ==> ReadGroups(data, i, count) == Bad(IntOverflow)
    ensures count + n < 10 && i + n == |data| ==> ReadGroups(data, i, count) == Bad(UnexpectedEOF)
    ensures count + n < 10 && i + n < |data| && data[i + n] < 128 ==>
              ReadGroups(data, i, count) == Good(Num(GroupsValue(data[i..i + n + 1]), i + n + 1))
    decreases n
  {
    if n > 0 {
      GroupsExact(data, i + 1, n - 1, count + 1);
      if i + n < |data| { assert data[i..i + n + 1][1..] == data[i + 1..i + n + 1]; }
    } else if i < |data| {
      assert data[i..i + 1][1..] == [];
    }
  }

  /** A field number is the tag without its wire type, kept to 32 bits and read as signed. */
  lemma FieldNumberExact(wire: nat)
    ensures -TWO_32 / 2 <= FieldNumber(wire) < TWO_32 / 2
    ensures (wire / 8 - FieldNumber(wire)) % TWO_32 == 0
  {
    var q := wire / 8 / TWO_32;
    assert wire / 8 == q * TWO_32 + wire / 8 % TWO_32;
    if wire / 8 % TWO_32 >= TWO_32 / 2 {
      assert wire / 8 - FieldNumber(wire) == (q + 1) * TWO_32;
      Multiple(q + 1);
    } else {
      assert wire / 8 - FieldNumber(wire) == q * TWO_32;
      Multiple(q);
    }
  }

  lemma Multiple(q: nat)
    ensures (q * TWO_32) % TWO_32 == 0
  {
  }
}

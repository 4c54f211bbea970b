/** Unknown fields of the Protocol Buffers wire format, groups of any nesting included, and the parser's
    promise to pass over them. */
module KvUnknown {
  import opened Bytes
  import opened Varint
  import opened Words
  import opened Kv
  import opened KvCodec
  import opened KvParser

  const MAX_FIELD := 0x1FFF_FFFF

  datatype Field =
    | VarintField(num: nat, value: nat)
    | Fixed64(num: nat, bytes: Bytes)
    | Sized(num: nat, bytes: Bytes)
    | Group(num: nat, fields: Fields)
    | Fixed32(num: nat, bytes: Bytes)

  datatype Fields = End | More(head: Field, tail: Fields)

  function WireType(f: Field): nat {
    match f
    case VarintField(_, _) => 0
    case Fixed64(_, _) => 1
    case Sized(_, _) => 2
    case Group(_, _) => 3
    case Fixed32(_, _) => 5
  }

  ghost predicate WellFormed(f: Field) {
    && 1 <= f.num <= MAX_FIELD
    && match f
       case VarintField(_, value) => value < TWO_64
       case Fixed64(_, bytes) => |bytes| == 8
       case Sized(_, bytes) => true
       case Group(_, fields) => AllWellFormed(fields)
       case Fixed32(_, bytes) => |bytes| == 4
  }

  ghost predicate AllWellFormed(fs: Fields) {
    fs.More? ==> WellFormed(fs.head) && AllWellFormed(fs.tail)
  }

  function EncTag(num: nat, wireType: nat): Bytes {
    Uvarint(8 * num + wireType)
  }

  function EncBody(f: Field): Bytes
    decreases f, 0
  {
    match f
    case VarintField(_, value) => Uvarint(value)
    case Fixed64(_, bytes) => bytes
    case Sized(_, bytes) => Uvarint(|bytes|) + bytes
    case Group(num, fields) => EncFields(fields) + EncTag(num, 4)
    case Fixed32(_, bytes) => bytes
  }

  function EncUnknown(f: Field): Bytes
    decreases f, 1
  {
    EncTag(f.num, WireType(f)) + EncBody(f)
  }

  function EncFields(fs: Fields): Bytes
    decreases fs, 0
  {
    match fs
    case End => []
    case More(head, tail) => EncUnknown(head) + EncFields(tail)
  }

  lemma TagSplits(num: nat, wireType: nat)
    requires wireType < 8
    ensures (8 * num + wireType) % 8 == wireType && (8 * num + wireType) / 8 == num
  {
  }

  lemma ReadsWire(data: Bytes, i: nat, num: nat, wireType: nat)
    requires wireType < 8 && num <= MAX_FIELD && HoldsAt(data, i, EncTag(num, wireType))
    ensures ReadVarint(data, i) == Good(Num(8 * num + wireType, i + |EncTag(num, wireType)|))
    ensures (8 * num + wireType) % 8 == wireType
  {
    TagSplits(num, wireType);
    ReadsLength(data, i, 8 * num + wireType);
  }

  /** One element of the walk, for the kinds without nesting. */
  lemma WalksLeaf(data: Bytes, i: nat, f: Field, depth: nat)
    requires FitsInt(data) && WellFormed(f) && !f.Group? && HoldsAt(data, i, EncUnknown(f))
    ensures SkipOne(data, i, depth) == Good(Walk(i + |EncUnknown(f)|, depth))
  {
    HoldsSplit(data, i, EncTag(f.num, WireType(f)), EncBody(f));
    ReadsWire(data, i, f.num, WireType(f));
    var j := i + |EncTag(f.num, WireType(f))|;
    var w := Num(8 * f.num + WireType(f), j);
    match f
    case VarintField(_, value) => WalksVarint(data, i, w, value, depth);
    case Fixed64(_, bytes) =>
    case Sized(_, bytes) => WalksSized(data, i, w, bytes, depth);
    case Fixed32(_, bytes) =>
  }

  lemma WalksVarint(data: Bytes, i: nat, w: Num, value: nat, depth: nat)
    requires ReadVarint(data, i) == Good(w) && w.value % 8 == 0 && value < TWO_64
    requires HoldsAt(data, w.next, Uvarint(value))
    ensures SkipOne(data, i, depth) == Good(Walk(w.next + |Uvarint(value)|, depth))
  {
    ReadsLength(data, w.next, value);
  }

  lemma WalksSized(data: Bytes, i: nat, w: Num, bytes: Bytes, depth: nat)
    requires FitsInt(data) && ReadVarint(data, i) == Good(w) && w.value % 8 == 2
    requires HoldsAt(data, w.next, Uvarint(|bytes|) + bytes)
    ensures SkipOne(data, i, depth) == Good(Walk(w.next + |Uvarint(|bytes|)| + |bytes|, depth))
  {
    HoldsSplit(data, w.next, Uvarint(|bytes|), bytes);
    ReadsLength(data, w.next, |bytes|);
  }

  lemma WalksStart(data: Bytes, i: nat, num: nat, depth: nat)
    requires num <= MAX_FIELD && HoldsAt(data, i, EncTag(num, 3))
    ensures SkipOne(data, i, depth) == Good(Walk(i + |EncTag(num, 3)|, depth + 1))
  {
    ReadsWire(data, i, num, 3);
  }

  lemma WalksEnd(data: Bytes, i: nat, num: nat, depth: nat)
    requires num <= MAX_FIELD && HoldsAt(data, i, EncTag(num, 4)) && depth > 0
    ensures SkipOne(data, i, depth) == Good(Walk(i + |EncTag(num, 4)|, depth - 1))
  {
    ReadsWire(data, i, num, 4);
  }

  // ---------- the walk, for any step ----------

  type Step = (nat, nat) -> Res<Walk>

  /** The loop of `skipKv` over an arbitrary step. */
  ghost function WalkFrom(step: Step, size: nat, i: nat, depth: nat): Res<nat>
    decreases size - i
  {
    if i >= size then Bad(UnexpectedEOF)
    else match step(i, depth)
      case Bad(e) => Bad(e)
      case Good(w) =>
        if w.next <= i || w.next >= TWO_63 then Bad(InvalidLength)
        else if w.depth == 0 then Good(w.next)
        else if w.next >= size then Bad(UnexpectedEOF)
        else WalkFrom(step, size, w.next, w.depth)
  }

  ghost function StepOf(data: Bytes): Step {
    (i: nat, depth: nat) => SkipOne(data, i, depth)
  }

  lemma {:induction false} SkipIsWalk(data: Bytes, i: nat, depth: nat)
    ensures SkipFrom(data, i, depth) == WalkFrom(StepOf(data), |data|, i, depth)
    decreases |data| - i
  {
    if i < |data| {
      var w := SkipOne(data, i, depth);
      if w.Good? && w.value.next < |data| { SkipIsWalk(data, w.value.next, w.value.depth); }
    }
  }

  /** What matters of a field to the walk: lengths and nesting. */
  datatype Shape = Leaf(size: nat) | Nest(start: nat, kids: Shapes, end: nat)
  datatype Shapes = NoShapes | Shaped(head: Shape, tail: Shapes)

  function Size(s: Shape): nat {
    match s
    case Leaf(size) => size
    case Nest(start, kids, end) => start + Sizes(kids) + end
  }

  function Sizes(ss: Shapes): nat {
    match ss
    case NoShapes => 0
    case Shaped(head, tail) => Size(head) + Sizes(tail)
  }

  /** At every depth the step passes the parts of a field of this shape that starts at i. */
  ghost predicate Fits(step: Step, i: nat, s: Shape)
    decreases s
  {
    match s
    case Leaf(size) => size > 0 && Moves(step, i, size)
    case Nest(start, kids, end) =>
      && start > 0 && end > 0
      && Opens(step, i, start) && FitAll(step, i + start, kids) && Closes(step, i + start + Sizes(kids), end)
  }

  ghost predicate FitAll(step: Step, i: nat, ss: Shapes)
    decreases ss
  {
    ss.Shaped? ==> Fits(step, i, ss.head) && FitAll(step, i + Size(ss.head), ss.tail)
  }

  ghost predicate Moves(step: Step, i: nat, n: nat) {
    forall d: nat :: step(i, d) == Good(Walk(i + n, d))
  }

  ghost predicate Opens(step: Step, i: nat, n: nat) {
    forall d: nat :: step(i, d) == Good(Walk(i + n, d + 1))
  }

  ghost predicate Closes(step: Step, i: nat, n: nat) {
    forall d: nat :: d > 0 ==> step(i, d) == Good(Walk(i + n, d - 1))
  }

  /** Where a walk at some depth stands after an element that ends at `j`. */
  ghost function Onward(step: Step, size: nat, j: nat, depth: nat): Res<nat> {
    if depth == 0 then Good(j) else if j >= size then Bad(UnexpectedEOF) else WalkFrom(step, size, j, depth)
  }

  /** The walk passes exactly one field, however deeply its groups nest. */
  lemma {:induction false} WalksShape(step: Step, size: nat, i: nat, s: Shape, depth: nat)
    requires Fits(step, i, s) && i + Size(s) <= size < TWO_63
    ensures WalkFrom(step, size, i, depth) == Onward(step, size, i + Size(s), depth)
    decreases s
  {
    match s
    case Leaf(n) => assert step(i, depth) == Good(Walk(i + n, depth));
    case Nest(start, kids, end) =>
      assert step(i, depth) == Good(Walk(i + start, depth + 1));
      WalksShapes(step, size, i + start, kids, depth + 1);
      var k := i + start + Sizes(kids);
      assert step(k, depth + 1) == Good(Walk(k + end, depth));
  }

  lemma {:induction false} WalksShapes(step: Step, size: nat, i: nat, ss: Shapes, depth: nat)
    requires FitAll(step, i, ss) && i + Sizes(ss) < size < TWO_63 && depth > 0
    ensures WalkFrom(step, size, i, depth) == WalkFrom(step, size, i + Sizes(ss), depth)
    decreases ss
  {
    if ss.Shaped? {
      WalksShape(step, size, i, ss.head, depth);
      WalksShapes(step, size, i + Size(ss.head), ss.tail, depth);
    }
  }

  // ---------- encoded fields have such shapes ----------

  function ShapeOf(f: Field): Shape {
    if f.Group? then Nest(|EncTag(f.num, 3)|, ShapesOf(f.fields), |EncTag(f.num, 4)|) else Leaf(|EncUnknown(f)|)
  }

  function ShapesOf(fs: Fields): Shapes {
    match fs
    case End => NoShapes
    case More(head, tail) => Shaped(ShapeOf(head), ShapesOf(tail))
  }

  lemma {:induction false} SizeIsLength(f: Field)
    ensures Size(ShapeOf(f)) == |EncUnknown(f)|
  {
    if f.Group? { SizesAreLength(f.fields); }
  }

  lemma {:induction false} SizesAreLength(fs: Fields)
    ensures Sizes(ShapesOf(fs)) == |EncFields(fs)|
  {
    if fs.More? {
      SizeIsLength(fs.head);
      SizesAreLength(fs.tail);
    }
  }

  lemma TagNotEmpty(num: nat, wireType: nat)
    ensures |EncTag(num, wireType)| > 0
  {
  }

  lemma HoldsThree(data: Bytes, i: nat, a: Bytes, b: Bytes, c: Bytes)
    requires HoldsAt(data, i, a + (b + c))
    ensures HoldsAt(data, i, a) && HoldsAt(data, i + |a|, b) && HoldsAt(data, i + |a| + |b|, c)
  {
    HoldsSplit(data, i, a, b + c);
    HoldsSplit(data, i + |a|, b, c);
  }

  lemma GroupIs(num: nat, fs: Fields)
    ensures EncUnknown(Group(num, fs)) == EncTag(num, 3) + (EncFields(fs) + EncTag(num, 4))
  {
  }

  lemma LeafFits(data: Bytes, i: nat, f: Field)
    requires FitsInt(data) && WellFormed(f) && !f.Group? && HoldsAt(data, i, EncUnknown(f))
    ensures Fits(StepOf(data), i, Leaf(|EncUnknown(f)|))
  {
    TagNotEmpty(f.num, WireType(f));
    var n := |EncUnknown(f)|;
    forall d: nat ensures StepOf(data)(i, d) == Good(Walk(i + n, d)) { WalksLeaf(data, i, f, d); }
  }

  lemma TagsFit(data: Bytes, i: nat, k: nat, num: nat)
    requires num <= MAX_FIELD && HoldsAt(data, i, EncTag(num, 3)) && HoldsAt(data, k, EncTag(num, 4))
    ensures Opens(StepOf(data), i, |EncTag(num, 3)|) && Closes(StepOf(data), k, |EncTag(num, 4)|)
  {
    var start, end := |EncTag(num, 3)|, |EncTag(num, 4)|;
    forall d: nat ensures StepOf(data)(i, d) == Good(Walk(i + start, d + 1)) { WalksStart(data, i, num, d); }
    forall d: nat | d > 0 ensures StepOf(data)(k, d) == Good(Walk(k + end, d - 1)) { WalksEnd(data, k, num, d); }
  }

  lemma {:induction false} EncodedFits(data: Bytes, i: nat, f: Field)
    requires FitsInt(data) && WellFormed(f) && HoldsAt(data, i, EncUnknown(f))
    ensures Fits(StepOf(data), i, ShapeOf(f))
    decreases f
  {
    if f.Group? {
      GroupIs(f.num, f.fields);
      HoldsThree(data, i, EncTag(f.num, 3), EncFields(f.fields), EncTag(f.num, 4));
      GroupFits(data, i, f.num, f.fields);
    } else {
      LeafFits(data, i, f);
    }
  }

  lemma {:induction false} GroupFits(data: Bytes, i: nat, num: nat, fs: Fields)
    requires FitsInt(data) && num <= MAX_FIELD && AllWellFormed(fs) && HoldsAt(data, i, EncTag(num, 3))
    requires HoldsAt(data, i + |EncTag(num, 3)|, EncFields(fs))
    requires HoldsAt(data, i + |EncTag(num, 3)| + |EncFields(fs)|, EncTag(num, 4))
    ensures Fits(StepOf(data), i, Nest(|EncTag(num, 3)|, ShapesOf(fs), |EncTag(num, 4)|))
    decreases fs, 1
  {
    hide StepOf, EncTag, EncFields, ShapesOf, FitAll, Sizes, AllWellFormed, Opens, Closes, HoldsAt, FitsInt;
    TagNotEmpty(num, 3);
    TagNotEmpty(num, 4);
    SizesAreLength(fs);
    TagsFit(data, i, i + |EncTag(num, 3)| + |EncFields(fs)|, num);
    EncodedFit(data, i + |EncTag(num, 3)|, fs);
  }

  lemma {:induction false} EncodedFit(data: Bytes, i: nat, fs: Fields)
    requires FitsInt(data) && AllWellFormed(fs) && HoldsAt(data, i, EncFields(fs))
    ensures FitAll(StepOf(data), i, ShapesOf(fs))
    decreases fs, 0
  {
    if fs.More? {
      HoldsSplit(data, i, EncUnknown(fs.head), EncFields(fs.tail));
      EncodedFits(data, i, fs.head);
      SizeIsLength(fs.head);
      EncodedFit(data, i + |EncUnknown(fs.head)|, fs.tail);
    }
  }

  /** `skipKv` returns the length of exactly one field. */
  lemma SkipsOneField(f: Field, rest: Bytes)
    requires WellFormed(f) && FitsInt(EncUnknown(f) + rest)
    ensures SkipFrom(EncUnknown(f) + rest, 0, 0) == Good(|EncUnknown(f)|)
  {
    var data := EncUnknown(f) + rest;
    assert HoldsAt(data, 0, EncUnknown(f));
    hide HoldsAt, EncUnknown, SkipFrom, WalkFrom, StepOf, ShapeOf, WellFormed, Fits, Size;
    SkipIsWalk(data, 0, 0);
    EncodedFits(data, 0, f);
    SizeIsLength(f);
    WalksShape(StepOf(data), |data|, 0, ShapeOf(f), 0);
  }

  // ---------- messages as a newer writer might print them ----------

  /** A field inside an entry: the key or the value, any number of times, or one this parser does not know. */
  datatype Part = KeyIs(bytes: Bytes) | ValueIs(bytes: Bytes) | Beside(field: Field)

  datatype Element = Known(parts: seq<Part>) | Unknown(field: Field)

  ghost predicate GoodPart(p: Part) {
    p.Beside? ==> WellFormed(p.field) && p.field.num > 2
  }

  ghost predicate GoodElement(e: Element) {
    match e
    case Known(parts) => forall n :: 0 <= n < |parts| ==> GoodPart(parts[n])
    case Unknown(f) => WellFormed(f) && f.num > 1
  }

  /** The field as the wire format has it: the key is field 1, the value field 2, both length-delimited. */
  function PartField(p: Part): Field {
    match p
    case KeyIs(bytes) => Sized(1, bytes)
    case ValueIs(bytes) => Sized(2, bytes)
    case Beside(f) => f
  }

  function EncPart(p: Part): Bytes {
    EncUnknown(PartField(p))
  }

  function EncParts(parts: seq<Part>): Bytes {
    Concat(EncPart, parts)
  }

  /** An entry is a length-delimited field 1. */
  function ElementField(e: Element): Field {
    match e
    case Known(parts) => Sized(1, EncParts(parts))
    case Unknown(f) => f
  }

  function EncElement(e: Element): Bytes {
    EncUnknown(ElementField(e))
  }

  function Delimited(tag: byte, body: Bytes): Bytes {
    [tag] + Uvarint(|body|) + body
  }

  lemma SizedIsDelimited(num: nat, body: Bytes)
    requires num == 1 || num == 2
    ensures EncUnknown(Sized(num, body)) == Delimited(if num == 1 then 0x0a else 0x12, body)
  {
    assert EncTag(num, 2) == [8 * num + 2];
    assert [8 * num + 2] + (Uvarint(|body|) + body) == [8 * num + 2] + Uvarint(|body|) + body;
  }

  function EncElements(es: seq<Element>): Bytes {
    Concat(EncElement, es)
  }

  function Concat<T>(enc: T -> Bytes, xs: seq<T>): Bytes {
    if xs == [] then [] else enc(xs[0]) + Concat(enc, xs[1..])
  }

  /** The data ends in the encoding of what is left of a sequence. */
  predicate Ahead<T>(data: Bytes, i: nat, enc: T -> Bytes, xs: seq<T>, k: nat) {
    k <= |xs| && HoldsAt(data, i, Concat(enc, xs[k..])) && i + |Concat(enc, xs[k..])| == |data|
  }

  lemma AheadStart<T>(enc: T -> Bytes, xs: seq<T>)
    ensures Ahead(Concat(enc, xs), 0, enc, xs, 0)
  {
    assert xs[0..] == xs;
  }

  lemma AheadNext<T>(data: Bytes, i: nat, enc: T -> Bytes, xs: seq<T>, k: nat)
    requires Ahead(data, i, enc, xs, k) && k < |xs|
    ensures HoldsAt(data, i, enc(xs[k])) && Ahead(data, i + |enc(xs[k])|, enc, xs, k + 1)
  {
    assert xs[k..][0] == xs[k] && xs[k..][1..] == xs[k + 1..];
    HoldsSplit(data, i, enc(xs[k]), Concat(enc, xs[k + 1..]));
  }

  function Updated(p: Pair, part: Part): Pair {
    match part
    case KeyIs(bytes) => p.(key := bytes)
    case ValueIs(bytes) => p.(value := bytes)
    case Beside(_) => p
  }

  /** What the parts amount to: later ones replace earlier ones. */
  function PairOf(parts: seq<Part>): Pair {
    if parts == [] then Pair([], []) else Updated(PairOf(parts[..|parts| - 1]), parts[|parts| - 1])
  }

  function PairsOf(es: seq<Element>): seq<Pair> {
    if es == [] then []
    else
      var n := |es| - 1;
      PairsOf(es[..n]) + if es[n].Known? then [PairOf(es[n].parts)] else []
  }

  // ---------- passing over and reading ----------

  lemma ReadsForeignTag(data: Bytes, i: nat, f: Field)
    requires WellFormed(f) && HoldsAt(data, i, EncTag(f.num, WireType(f)))
    ensures ReadTag(data, i) == Good(Tag(f.num, WireType(f), i + |EncTag(f.num, WireType(f))|))
  {
    ReadsWire(data, i, f.num, WireType(f));
    TagSplits(f.num, WireType(f));
  }

  lemma SkipsForeign(data: Bytes, i: nat, f: Field)
    requires FitsInt(data) && WellFormed(f) && HoldsAt(data, i, EncUnknown(f))
    ensures i < |data| && i < i + |EncUnknown(f)| <= |data| && SkipField(data, i) == Good(i + |EncUnknown(f)|)
    ensures ReadTag(data, i).Good? && ReadTag(data, i).value.field == f.num
  {
    TagNotEmpty(f.num, WireType(f));
    HoldsSplit(data, i, EncTag(f.num, WireType(f)), EncBody(f));
    ReadsForeignTag(data, i, f);
    var rest := data[i + |EncUnknown(f)|..];
    assert data[i..] == EncUnknown(f) + rest;
    SkipsOneField(f, rest);
  }

  lemma PairSkips(data: Bytes, i: nat, p: Pair, t: Tag, n: nat)
    requires i < |data| && ReadTag(data, i) == Good(t) && t.field != 1 && t.field != 2 && SkipField(data, i) == Good(n)
    ensures ParsePair(data, i, p) == ParsePair(data, n, p)
  {
  }

  lemma PairsSkip(data: Bytes, i: nat, acc: seq<Pair>, t: Tag, n: nat)
    requires i < |data| && ReadTag(data, i) == Good(t) && t.field != 1 && SkipField(data, i) == Good(n)
    ensures ParsePairs(data, i, acc) == ParsePairs(data, n, acc)
  {
  }

  lemma ReadsPart(data: Bytes, i: nat, tag: byte, body: Bytes, p: Pair)
    requires FitsInt(data) && (tag == 0x0a || tag == 0x12) && HoldsAt(data, i, Delimited(tag, body))
    ensures i + |Delimited(tag, body)| <= |data|
    ensures ParsePair(data, i, p) == ParsePair(data, i + |Delimited(tag, body)|, WithField(p, tag, body))
  {
    hide ParsePair, ReadTag, ReadSpan;
    ReadsField(data, i, tag, body);
    var n := i + 1 + |Uvarint(|body|)|;
    PairStep(data, i, p, Tag(if tag == 0x0a then 1 else 2, 2, i + 1), Span(n, n + |body|));
  }

  lemma ParsesPart(data: Bytes, i: nat, part: Part, p: Pair)
    requires FitsInt(data) && GoodPart(part) && HoldsAt(data, i, EncPart(part))
    ensures i + |EncPart(part)| <= |data|
    ensures ParsePair(data, i, p) == ParsePair(data, i + |EncPart(part)|, Updated(p, part))
  {
    hide ParsePair, ReadTag, SkipField, EncUnknown, WellFormed;
    match part
    case KeyIs(bytes) =>
      SizedIsDelimited(1, bytes);
      ReadsPart(data, i, 0x0a, bytes, p);
    case ValueIs(bytes) =>
      SizedIsDelimited(2, bytes);
      ReadsPart(data, i, 0x12, bytes, p);
    case Beside(f) =>
      SkipsForeign(data, i, f);
      PairSkips(data, i, p, ReadTag(data, i).value, i + |EncUnknown(f)|);
  }

  lemma {:induction false} ParsesParts(data: Bytes, i: nat, parts: seq<Part>, k: nat)
    requires FitsInt(data) && (forall n :: 0 <= n < |parts| ==> GoodPart(parts[n])) && Ahead(data, i, EncPart, parts, k)
    ensures ParsePair(data, i, PairOf(parts[..k])) == Good(PairOf(parts))
    decreases |parts| - k
  {
    hide EncPart, GoodPart, ParsePair, Updated;
    if k == |parts| {
      assert parts[..k] == parts;
      NothingLeft(data, i, PairOf(parts));
    } else {
      AheadNext(data, i, EncPart, parts, k);
      ParsesPart(data, i, parts[k], PairOf(parts[..k]));
      assert parts[..k + 1][..k] == parts[..k];
      ParsesParts(data, i + |EncPart(parts[k])|, parts, k + 1);
    }
  }

  /** An entry is read as its last key and its last value, whatever else stands in it. */
  lemma PartsRead(parts: seq<Part>)
    requires FitsInt(EncParts(parts)) && forall n :: 0 <= n < |parts| ==> GoodPart(parts[n])
    ensures ParsePair(EncParts(parts), 0, Pair([], [])) == Good(PairOf(parts))
  {
    AheadStart(EncPart, parts);
    assert parts[..0] == [];
    ParsesParts(EncParts(parts), 0, parts, 0);
  }

  lemma {:induction false} LastWins(parts: seq<Part>, n: nat)
    requires n < |parts|
    ensures parts[n].KeyIs? && (forall m :: n < m < |parts| ==> !parts[m].KeyIs?) ==>
              PairOf(parts).key == parts[n].bytes
    ensures parts[n].ValueIs? && (forall m :: n < m < |parts| ==> !parts[m].ValueIs?) ==>
              PairOf(parts).value == parts[n].bytes
    decreases |parts|
  {
    if n < |parts| - 1 { LastWins(parts[..|parts| - 1], n); }
  }

  lemma ParsesKnown(data: Bytes, i: nat, parts: seq<Part>, acc: seq<Pair>)
    requires FitsInt(data) && GoodElement(Known(parts)) && HoldsAt(data, i, Delimited(0x0a, EncParts(parts)))
    ensures i + |Delimited(0x0a, EncParts(parts))| <= |data|
    ensures ParsePairs(data, i, acc) == ParsePairs(data, i + |Delimited(0x0a, EncParts(parts))|, acc + [PairOf(parts)])
  {
    hide ParsePairs, ParsePair, ReadTag, ReadSpan, EncParts, GoodPart, PairOf;
    var s := ReadsEntry(data, i, EncParts(parts));
    PartsRead(parts);
    EntryStep(data, i, acc, Tag(1, 2, i + 1), s, PairOf(parts));
  }

  function Read(acc: seq<Pair>, e: Element): seq<Pair> {
    acc + if e.Known? then [PairOf(e.parts)] else []
  }

  lemma ParsesElement(data: Bytes, i: nat, e: Element, acc: seq<Pair>)
    requires FitsInt(data) && GoodElement(e) && HoldsAt(data, i, EncElement(e))
    ensures i + |EncElement(e)| <= |data|
    ensures ParsePairs(data, i, acc) == ParsePairs(data, i + |EncElement(e)|, Read(acc, e))
  {
    hide ParsePairs, ReadTag, SkipField, EncUnknown, WellFormed, EncParts, GoodPart, PairOf;
    match e
    case Known(parts) =>
      SizedIsDelimited(1, EncParts(parts));
      ParsesKnown(data, i, parts, acc);
    case Unknown(f) =>
      SkipsForeign(data, i, f);
      PairsSkip(data, i, acc, ReadTag(data, i).value, i + |EncUnknown(f)|);
      assert acc + [] == acc;
  }

  lemma NoneLeft(data: Bytes, i: nat, ps: seq<Pair>)
    requires i == |data|
    ensures ParsePairs(data, i, ps) == Good(ps)
  {
  }

  lemma {:induction false} ParsesElements(data: Bytes, i: nat, es: seq<Element>, k: nat)
    requires FitsInt(data) && (forall n :: 0 <= n < |es| ==> GoodElement(es[n])) && Ahead(data, i, EncElement, es, k)
    ensures ParsePairs(data, i, PairsOf(es[..k])) == Good(PairsOf(es))
    decreases |es| - k
  {
    hide EncElement, GoodElement, PairOf, ParsePairs;
    if k == |es| {
      assert es[..k] == es;
      NoneLeft(data, i, PairsOf(es));
    } else {
      AheadNext(data, i, EncElement, es, k);
      ParsesElement(data, i, es[k], PairsOf(es[..k]));
      assert es[..k + 1][..k] == es[..k];
      ParsesElements(data, i + |EncElement(es[k])|, es, k + 1);
    }
  }

  /** Unknown fields of any kind, before, between, after and inside the entries, change nothing, and of repeated
      fields of an entry the last one counts: exactly the entries are parsed, in order. */
  lemma UnknownFieldsIgnored(es: seq<Element>)
    requires FitsInt(EncElements(es)) && forall n :: 0 <= n < |es| ==> GoodElement(es[n])
    ensures ParsePairs(EncElements(es), 0, []) == Good(PairsOf(es))
  {
    AheadStart(EncElement, es);
    assert es[..0] == [];
    ParsesElements(EncElements(es), 0, es, 0);
  }

  // ---------- what the printer writes ----------

  /** The canonical form of an entry: each field at most once, in the order of the field numbers, and none empty. */
  ghost predicate CanonicalParts(parts: seq<Part>) {
    && (forall n :: 0 <= n < |parts| ==> !parts[n].Beside? && parts[n].bytes != [])
    && (forall n, m :: 0 <= n < m < |parts| ==> PartField(parts[n]).num < PartField(parts[m]).num)
  }

  ghost predicate Canonical(es: seq<Element>) {
    forall n :: 0 <= n < |es| ==> es[n].Known? && CanonicalParts(es[n].parts)
  }

  lemma {:induction false} NumbersGrow(parts: seq<Part>, n: nat)
    requires CanonicalParts(parts) && n < |parts|
    ensures n + 1 <= PartField(parts[n]).num <= 2
    decreases n
  {
    if n > 0 { NumbersGrow(parts, n - 1); }
  }

  lemma PrintsParts(parts: seq<Part>)
    requires CanonicalParts(parts)
    ensures EncPair(PairOf(parts)) == EncParts(parts)
  {
    if parts != [] { NumbersGrow(parts, |parts| - 1); }
    hide EncUnknown;
    if |parts| == 0 {
    } else if |parts| == 1 {
      PrintsOne(parts[0]);
      assert parts[..0] == [] && parts[1..] == [];
      ConcatTwo(EncPart, parts);
    } else {
      assert parts == [parts[0], parts[1]] && parts[0].KeyIs? && parts[1].ValueIs?;
      PrintsOne(parts[0]);
      PrintsOne(parts[1]);
      assert parts[..1] == [parts[0]] && parts[..1][..0] == [] && parts[1..] == [parts[1]] && parts[1..][1..] == [];
      ConcatTwo(EncPart, parts);
    }
  }

  lemma ConcatTwo<T>(enc: T -> Bytes, xs: seq<T>)
    requires 1 <= |xs| <= 2
    ensures Concat(enc, xs) == if |xs| == 1 then enc(xs[0]) else enc(xs[0]) + enc(xs[1])
  {
    assert xs[1..] == [] || (xs[1..][0] == xs[1] && xs[1..][1..] == []);
  }

  lemma PrintsOne(part: Part)
    requires !part.Beside? && part.bytes != []
    ensures EncPart(part) == EncField(if part.KeyIs? then 0x0a else 0x12, part.bytes)
  {
    SizedIsDelimited(if part.KeyIs? then 1 else 2, part.bytes);
  }

  /** The printer writes exactly the canonical form: entries in order, the key before the value, empty ones left out. */
  lemma {:induction false} PrintsCanonically(es: seq<Element>)
    requires Canonical(es)
    ensures EncPairs(PairsOf(es)) == EncElements(es)
  {
    if es != [] {
      var parts := es[0].parts;
      PairsOfKnown(es);
      PrintsCanonically(es[1..]);
      PrintsParts(parts);
      SizedIsDelimited(1, EncParts(parts));
      hide EncPair, EncParts, EncUnknown, PairOf;
      assert EncElements(es) == EncElement(es[0]) + EncElements(es[1..]);
      assert PairsOf(es)[0] == PairOf(parts) && PairsOf(es)[1..] == PairsOf(es[1..]);
    }
  }

  lemma {:induction false} PairsOfKnown(es: seq<Element>)
    requires es != [] && es[0].Known?
    ensures PairsOf(es) == [PairOf(es[0].parts)] + PairsOf(es[1..])
  {
    hide PairOf;
    var n := |es| - 1;
    if n > 0 {
      PairsOfKnown(es[..n]);
      assert es[..n][1..] == es[1..][..n - 1];
    }
  }

  /** Every list of pairs has a canonical form. */
  function CanonicalOf(ps: seq<Pair>): (es: seq<Element>)
    ensures |es| == |ps| && forall n :: 0 <= n < |ps| ==> es[n] == Known(PartsFor(ps[n]))
  {
    seq(|ps|, n requires 0 <= n < |ps| => Known(PartsFor(ps[n])))
  }

  function PartsFor(p: Pair): seq<Part> {
    (if p.key == [] then [] else [KeyIs(p.key)]) + (if p.value == [] then [] else [ValueIs(p.value)])
  }

  lemma {:induction false} CanonicalExists(ps: seq<Pair>)
    ensures Canonical(CanonicalOf(ps)) && PairsOf(CanonicalOf(ps)) == ps
  {
    hide PartsFor, CanonicalParts, PairOf;
    var es, n := CanonicalOf(ps), |ps| - 1;
    if ps != [] {
      CanonicalExists(ps[..n]);
      assert es[..n] == CanonicalOf(ps[..n]);
      CanonicalEntry(ps[n]);
      forall m | 0 <= m < |es| ensures es[m].Known? && CanonicalParts(es[m].parts) {
        if m < n { assert es[m] == es[..n][m]; }
      }
    }
  }

  lemma CanonicalEntry(p: Pair)
    ensures CanonicalParts(PartsFor(p)) && PairOf(PartsFor(p)) == p
  {
    var parts := PartsFor(p);
    if |parts| == 2 {
      assert parts[..1] == [KeyIs(p.key)] && parts[..1][..0] == [];
    } else if |parts| == 1 {
      assert parts[..0] == [];
    }
  }
}

/** The parser of `internal/kv/kv.pb.go` on arbitrary bytes, with Go's 64-bit arithmetic written out, and
    its round trip with the printer. */
module KvParser {
  import opened Bytes
  import opened Varint
  import opened Words
  import opened Kv
  import opened KvCodec

  datatype Error =
    | IntOverflow | UnexpectedEOF | InvalidLength | UnexpectedEndOfGroup
    | EndGroupTag | IllegalTag | WrongWireType | IllegalWireType

  datatype Res<+T> = Good(value: T) | Bad(error: Error)

  /** A decoded number and the index after it. */
  datatype Num = Num(value: nat, next: nat)

  // ----- Varints -----

  const MAX_GROUPS := 10

  /** The groups of a varint read so far are `count`; an eleventh would be shifted by 64 bits or more. */
  function ReadGroups(data: Bytes, i: nat, count: nat): (r: Res<Num>)
    ensures r.Good? ==> i < r.value.next <= |data|
    decreases |data| - i
  {
    if count >= MAX_GROUPS then Bad(IntOverflow)
    else if i >= |data| then Bad(UnexpectedEOF)
    else if data[i] < 128 then Good(Num(data[i], i + 1))
    else match ReadGroups(data, i + 1, count + 1)
      case Bad(e) => Bad(e)
      case Good(n) => Good(Num(data[i] % 128 + 128 * n.value, n.next))
  }

  /** The decoding loop all messages share; bits shifted past bit 63 are lost. */
  function ReadVarint(data: Bytes, i: nat): (r: Res<Num>)
    ensures r.Good? ==> i < r.value.next <= |data| && r.value.value < TWO_64
  {
    match ReadGroups(data, i, 0)
    case Bad(e) => Bad(e)
    case Good(n) => Good(Num(n.value % TWO_64, n.next))
  }

  /** What remains to be read, weighted by `scale`, on top of what has been accumulated. */
  function Resume(r: Res<Num>, acc: nat, scale: nat): Res<Num> {
    match r
    case Bad(e) => Bad(e)
    case Good(n) => Good(Num(acc + scale * n.value, n.next))
  }

  lemma ResumeStep(r: Res<Num>, low: nat, acc: nat, scale: nat)
    ensures Resume(match r case Bad(e) => Bad(e) case Good(n) => Good(Num(low + 128 * n.value, n.next)), acc, scale)
         == Resume(r, acc + low * scale, 128 * scale)
  {
    if r.Good? { Distribute(scale, low, r.value.value); }
  }

  lemma Distribute(scale: nat, low: nat, v: nat)
    ensures scale * (low + 128 * v) == low * scale + (128 * scale) * v
  {
  }

  method DecodeVarint(data: Bytes, start: nat) returns (r: Res<Num>)
    ensures r == ReadVarint(data, start)
  {
    var i, count, acc: nat, scale: nat := start, 0, 0, 1;
    while true
      invariant start <= i && ReadGroups(data, start, 0) == Resume(ReadGroups(data, i, count), acc, scale)
      decreases MAX_GROUPS - count
    {
      if count >= MAX_GROUPS { return Bad(IntOverflow); }
      if i >= |data| { return Bad(UnexpectedEOF); }
      ResumeStep(ReadGroups(data, i + 1, count + 1), data[i] % 128, acc, scale);
      if data[i] < 128 { return Good(Num((acc + scale * data[i]) % TWO_64, i + 1)); }
      acc, scale := acc + data[i] % 128 * scale, 128 * scale;
      i, count := i + 1, count + 1;
    }
  }

  // ----- Pieces of a field -----

  datatype Tag = Tag(field: int, wireType: nat, next: nat)

  /** `int32(wire >> 3)` keeps the low 32 bits and reads them as signed. */
  function FieldNumber(wire: nat): int {
    var low := wire / 8 % TWO_32;
    if low >= TWO_32 / 2 then low - TWO_32 else low
  }

  /** The tag at `i`, with the two rejections common to both messages. */
  function ReadTag(data: Bytes, i: nat): (r: Res<Tag>)
    ensures r.Good? ==> i < r.value.next <= |data|
  {
    match ReadVarint(data, i)
    case Bad(e) => Bad(e)
    case Good(w) =>
      if w.value % 8 == 4 then Bad(EndGroupTag)
      else if FieldNumber(w.value) <= 0 then Bad(IllegalTag)
      else Good(Tag(FieldNumber(w.value), w.value % 8, w.next))
  }

  /** Where a length-delimited value lies. */
  datatype Span = Span(lo: nat, hi: nat)

  function ReadSpan(data: Bytes, i: nat): (r: Res<Span>)
    ensures r.Good? ==> i < r.value.lo <= r.value.hi <= |data|
  {
    match ReadVarint(data, i)
    case Bad(e) => Bad(e)
    case Good(n) =>
      if n.value >= TWO_63 || n.next + n.value >= TWO_63 then Bad(InvalidLength)
      else if n.next + n.value > |data| then Bad(UnexpectedEOF)
      else Good(Span(n.next, n.next + n.value))
  }

  /** One element of `skipKv`'s walk: the index and group depth after it. The index may pass the end. */
  datatype Walk = Walk(next: nat, depth: nat)

  function SkipOne(data: Bytes, i: nat, depth: nat): (r: Res<Walk>)
    ensures r.Good? ==> i < r.value.next
  {
    match ReadVarint(data, i)
    case Bad(e) => Bad(e)
    case Good(w) =>
      var t := w.value % 8;
      if t == 0 then
        (match ReadVarint(data, w.next)
         case Bad(e) => Bad(e)
         case Good(n) => Good(Walk(n.next, depth)))
      else if t == 1 then Good(Walk(w.next + 8, depth))
      else if t == 2 then
        (match ReadVarint(data, w.next)
         case Bad(e) => Bad(e)
         case Good(n) => if n.value >= TWO_63 then Bad(InvalidLength) else Good(Walk(n.next + n.value, depth)))
      else if t == 3 then Good(Walk(w.next, depth + 1))
      else if t == 4 then (if depth == 0 then Bad(UnexpectedEndOfGroup) else Good(Walk(w.next, depth - 1)))
      else if t == 5 then Good(Walk(w.next + 4, depth))
      else Bad(IllegalWireType)
  }

  /** `skipKv` from index `i`: past one field, groups included. */
  function SkipFrom(data: Bytes, i: nat, depth: nat): (r: Res<nat>)
    ensures r.Good? ==> i < r.value
    decreases |data| - i
  {
    if i >= |data| then Bad(UnexpectedEOF)
    else match SkipOne(data, i, depth)
      case Bad(e) => Bad(e)
      case Good(w) =>
        if w.next >= TWO_63 then Bad(InvalidLength)
        else if w.depth == 0 then Good(w.next)
        else if w.next >= |data| then Bad(UnexpectedEOF)
        else SkipFrom(data, w.next, w.depth)
  }

  method SkipKv(data: Bytes) returns (r: Res<nat>)
    ensures r == SkipFrom(data, 0, 0)
  {
    var i, depth: nat := 0, 0;
    while i < |data|
      invariant SkipFrom(data, 0, 0) == SkipFrom(data, i, depth)
      decreases |data| - i
    {
      var w := SkipElement(data, i, depth);
      if w.Bad? { return Bad(w.error); }
      i, depth := w.value.next, w.value.depth;
      if i >= TWO_63 { return Bad(InvalidLength); }
      if depth == 0 { return Good(i); }
    }
    return Bad(UnexpectedEOF);
  }

  method SkipElement(data: Bytes, i: nat, depth: nat) returns (r: Res<Walk>)
    ensures r == SkipOne(data, i, depth)
  {
    var w := DecodeVarint(data, i);
    if w.Bad? { return Bad(w.error); }
    var next, t := w.value.next, w.value.value % 8;
    if t == 0 || t == 2 {
      var n := DecodeVarint(data, next);
      if n.Bad? { return Bad(n.error); }
      if t == 0 { return Good(Walk(n.value.next, depth)); }
      if n.value.value >= TWO_63 { return Bad(InvalidLength); }
      return Good(Walk(n.value.next + n.value.value, depth));
    }
    if t == 1 { return Good(Walk(next + 8, depth)); }
    if t == 3 { return Good(Walk(next, depth + 1)); }
    if t == 4 {
      if depth == 0 { return Bad(UnexpectedEndOfGroup); }
      return Good(Walk(next, depth - 1));
    }
    if t == 5 { return Good(Walk(next + 4, depth)); }
    return Bad(IllegalWireType);
  }

  /** Past an unknown field that starts at `i`. */
  function SkipField(data: Bytes, i: nat): (r: Res<nat>)
    requires i <= |data|
    ensures r.Good? ==> i < r.value <= |data|
  {
    match SkipFrom(data[i..], 0, 0)
    case Bad(e) => Bad(e)
    case Good(n) =>
      if i + n >= TWO_63 then Bad(InvalidLength) else if i + n > |data| then Bad(UnexpectedEOF) else Good(i + n)
  }

  // ----- Messages -----

  /** `Pair.Unmarshal` from index `i`; a repeated field overwrites. */
  function ParsePair(data: Bytes, i: nat, p: Pair): Res<Pair>
    requires i <= |data|
    decreases |data| - i
  {
    if i == |data| then Good(p)
    else match ReadTag(data, i)
      case Bad(e) => Bad(e)
      case Good(t) =>
        if t.field == 1 || t.field == 2 then
          if t.wireType != 2 then Bad(WrongWireType)
          else match ReadSpan(data, t.next)
            case Bad(e) => Bad(e)
            case Good(s) =>
              ParsePair(data, s.hi, if t.field == 1 then p.(key := data[s.lo..s.hi]) else p.(value := data[s.lo..s.hi]))
        else match SkipField(data, i)
          case Bad(e) => Bad(e)
          case Good(n) => ParsePair(data, n, p)
  }

  /** `Pairs.Unmarshal` from index `i`; entries are appended. */
  function ParsePairs(data: Bytes, i: nat, ps: seq<Pair>): Res<seq<Pair>>
    requires i <= |data|
    decreases |data| - i
  {
    if i == |data| then Good(ps)
    else match ReadTag(data, i)
      case Bad(e) => Bad(e)
      case Good(t) =>
        if t.field == 1 then
          if t.wireType != 2 then Bad(WrongWireType)
          else match ReadSpan(data, t.next)
            case Bad(e) => Bad(e)
            case Good(s) =>
              (match ParsePair(data[s.lo..s.hi], 0, Pair([], []))
               case Bad(e) => Bad(e)
               case Good(p) => ParsePairs(data, s.hi, ps + [p]))
        else match SkipField(data, i)
          case Bad(e) => Bad(e)
          case Good(n) => ParsePairs(data, n, ps)
  }

  method DecodeTag(data: Bytes, i: nat) returns (r: Res<Tag>)
    ensures r == ReadTag(data, i)
  {
    var w := DecodeVarint(data, i);
    if w.Bad? { return Bad(w.error); }
    var wireType, field := w.value.value % 8, FieldNumber(w.value.value);
    if wireType == 4 { return Bad(EndGroupTag); }
    if field <= 0 { return Bad(IllegalTag); }
    return Good(Tag(field, wireType, w.value.next));
  }

  method DecodeSpan(data: Bytes, i: nat) returns (r: Res<Span>)
    ensures r == ReadSpan(data, i)
  {
    var n := DecodeVarint(data, i);
    if n.Bad? { return Bad(n.error); }
    if n.value.value >= TWO_63 { return Bad(InvalidLength); }
    var post := n.value.next + n.value.value;
    if post >= TWO_63 { return Bad(InvalidLength); }
    if post > |data| { return Bad(UnexpectedEOF); }
    return Good(Span(n.value.next, post));
  }

  method SkipUnknown(data: Bytes, i: nat) returns (r: Res<nat>)
    requires i <= |data|
    ensures r == SkipField(data, i)
  {
    var n := SkipKv(data[i..]);
    if n.Bad? { return n; }
    if i + n.value >= TWO_63 { return Bad(InvalidLength); }
    if i + n.value > |data| { return Bad(UnexpectedEOF); }
    return Good(i + n.value);
  }

  method UnmarshalPair(data: Bytes) returns (r: Res<Pair>)
    ensures r == ParsePair(data, 0, Pair([], []))
  {
    var i, p := 0, Pair([], []);
    while i < |data|
      invariant 0 <= i <= |data| && ParsePair(data, 0, Pair([], [])) == ParsePair(data, i, p)
      decreases |data| - i
    {
      var t := DecodeTag(data, i);
      if t.Bad? { return Bad(t.error); }
      if t.value.field == 1 || t.value.field == 2 {
        if t.value.wireType != 2 { return Bad(WrongWireType); }
        var s := DecodeSpan(data, t.value.next);
        if s.Bad? { return Bad(s.error); }
        var field := data[s.value.lo..s.value.hi];
        p := if t.value.field == 1 then p.(key := field) else p.(value := field);
        i := s.value.hi;
      } else {
        var n := SkipUnknown(data, i);
        if n.Bad? { return Bad(n.error); }
        i := n.value;
      }
    }
    r := Good(p);
  }

  method Unmarshal(data: Bytes) returns (r: Res<seq<Pair>>)
    ensures r == ParsePairs(data, 0, [])
  {
    var i: nat, ps: seq<Pair> := 0, [];
    while i < |data|
      invariant 0 <= i <= |data| && ParsePairs(data, 0, []) == ParsePairs(data, i, ps)
      decreases |data| - i
    {
      var t := DecodeTag(data, i);
      if t.Bad? { return Bad(t.error); }
      if t.value.field == 1 {
        if t.value.wireType != 2 { return Bad(WrongWireType); }
        var s := DecodeSpan(data, t.value.next);
        if s.Bad? { return Bad(s.error); }
        var p := UnmarshalPair(data[s.value.lo..s.value.hi]);
        if p.Bad? { return Bad(p.error); }
        ps := ps + [p.value];
        i := s.value.hi;
      } else {
        var n := SkipUnknown(data, i);
        if n.Bad? { return Bad(n.error); }
        i := n.value;
      }
    }
    r := Good(ps);
  }

  // ----- Round trip -----

  /** `data` holds `piece` at index `i`. */
  predicate HoldsAt(data: Bytes, i: nat, piece: Bytes) {
    i + |piece| <= |data| && data[i..i + |piece|] == piece
  }

  lemma HoldsSplit(data: Bytes, i: nat, a: Bytes, b: Bytes)
    requires HoldsAt(data, i, a + b)
    ensures HoldsAt(data, i, a) && HoldsAt(data, i + |a|, b)
  {
    var all := a + b;
    assert data[i..i + |all|] == all;
    assert data[i..i + |a|] == all[..|a|] == a;
    assert data[i + |a|..i + |all|] == all[|a|..] == b;
  }

  function Pow128(k: nat): (p: nat)
    ensures p > 0
  {
    if k == 0 then 1 else 128 * Pow128(k - 1)
  }

  lemma {:induction false} UvarintShort(n: nat, k: nat)
    requires k >= 1 && n < Pow128(k)
    ensures |Uvarint(n)| <= k
  {
    if n >= 128 {
      assert k > 1;
      UvarintShort(n / 128, k - 1);
    }
  }

  lemma TenGroups()
    ensures Pow128(MAX_GROUPS) >= TWO_64
  {
    assert Pow128(2) == 16384 && Pow128(4) == 0x1000_0000;
    assert Pow128(6) == 0x1000_0000 * 16384 && Pow128(8) == 0x1000_0000 * 0x1000_0000;
    assert Pow128(10) == 0x1000_0000 * 0x1000_0000 * 16384;
  }

  lemma {:induction false} ReadsUvarint(data: Bytes, i: nat, n: nat, count: nat)
    requires HoldsAt(data, i, Uvarint(n)) && count + |Uvarint(n)| <= MAX_GROUPS
    ensures ReadGroups(data, i, count) == Good(Num(n, i + |Uvarint(n)|))
    decreases n
  {
    if n < 128 {
      assert data[i] == Uvarint(n)[0] == n;
    } else {
      HoldsSplit(data, i, [n % 128 + 128], Uvarint(n / 128));
      assert data[i..i + 1] == [n % 128 + 128] && data[i] == n % 128 + 128;
      ReadsUvarint(data, i + 1, n / 128, count + 1);
    }
  }

  lemma ReadsLength(data: Bytes, i: nat, n: nat)
    requires HoldsAt(data, i, Uvarint(n)) && n < TWO_64
    ensures ReadVarint(data, i) == Good(Num(n, i + |Uvarint(n)|))
  {
    TenGroups();
    UvarintShort(n, MAX_GROUPS);
    ReadsUvarint(data, i, n, 0);
  }

  /** Go slices are shorter than 2^63. */
  predicate FitsInt(data: Bytes) {
    |data| < TWO_63
  }

  lemma ReadsTag(data: Bytes, i: nat, tag: byte)
    requires HoldsAt(data, i, [tag]) && (tag == 0x0a || tag == 0x12)
    ensures ReadTag(data, i) == Good(Tag(if tag == 0x0a then 1 else 2, 2, i + 1))
  {
    assert Uvarint(tag) == [tag];
    ReadsLength(data, i, tag);
  }

  lemma ReadsSpan(data: Bytes, i: nat, body: Bytes)
    requires FitsInt(data) && HoldsAt(data, i, Uvarint(|body|)) && HoldsAt(data, i + |Uvarint(|body|)|, body)
    ensures ReadSpan(data, i) == Good(Span(i + |Uvarint(|body|)|, i + |Uvarint(|body|)| + |body|))
  {
    ReadsLength(data, i, |body|);
  }

  /** A printed field is read back: tag, then span. */
  lemma ReadsField(data: Bytes, i: nat, tag: byte, body: Bytes)
    requires FitsInt(data) && (tag == 0x0a || tag == 0x12) && HoldsAt(data, i, [tag] + Uvarint(|body|) + body)
    ensures ReadTag(data, i) == Good(Tag(if tag == 0x0a then 1 else 2, 2, i + 1))
    ensures ReadSpan(data, i + 1) == Good(Span(i + 1 + |Uvarint(|body|)|, i + 1 + |Uvarint(|body|)| + |body|))
    ensures HoldsAt(data, i + 1 + |Uvarint(|body|)|, body)
  {
    hide HoldsAt, ReadTag, ReadSpan, Uvarint, FitsInt;
    HoldsSplit(data, i, [tag] + Uvarint(|body|), body);
    HoldsSplit(data, i, [tag], Uvarint(|body|));
    ReadsTag(data, i, tag);
    ReadsSpan(data, i + 1, body);
  }

  function WithField(p: Pair, tag: byte, body: Bytes): Pair {
    if tag == 0x0a then p.(key := body) else p.(value := body)
  }

  lemma ParsesField(data: Bytes, i: nat, tag: byte, body: Bytes, p: Pair)
    requires FitsInt(data) && (tag == 0x0a || tag == 0x12) && HoldsAt(data, i, EncField(tag, body))
    requires body == [] ==> WithField(p, tag, []) == p
    ensures ParsePair(data, i, p) == ParsePair(data, i + |EncField(tag, body)|, WithField(p, tag, body))
  {
    if body != [] {
      ReadsField(data, i, tag, body);
      var n := i + 1 + |Uvarint(|body|)|;
      var t, s := Tag(if tag == 0x0a then 1 else 2, 2, i + 1), Span(n, n + |body|);
      assert data[s.lo..s.hi] == body && s.hi == i + |EncField(tag, body)|;
      PairStep(data, i, p, t, s);
      assert tag == if t.field == 1 then 0x0a else 0x12;
    }
  }

  lemma PairStep(data: Bytes, i: nat, p: Pair, t: Tag, s: Span)
    requires i < |data| && ReadTag(data, i) == Good(t) && (t.field == 1 || t.field == 2) && t.wireType == 2
    requires ReadSpan(data, t.next) == Good(s)
    ensures ParsePair(data, i, p)
         == ParsePair(data, s.hi, WithField(p, if t.field == 1 then 0x0a else 0x12, data[s.lo..s.hi]))
  {
  }

  lemma PairRoundTrip(p: Pair)
    requires FitsInt(EncPair(p))
    ensures ParsePair(EncPair(p), 0, Pair([], [])) == Good(p)
  {
    hide HoldsAt, ParsePair, EncField, FitsInt;
    var data, k, v := EncPair(p), EncField(0x0a, p.key), EncField(0x12, p.value);
    HoldsAll(data);
    HoldsSplit(data, 0, k, v);
    ParsesField(data, 0, 0x0a, p.key, Pair([], []));
    ParsesField(data, |k|, 0x12, p.value, Pair(p.key, []));
    NothingLeft(data, |k| + |v|, p);
  }

  lemma HoldsAll(data: Bytes)
    ensures HoldsAt(data, 0, data)
  {
  }

  lemma NothingLeft(data: Bytes, i: nat, p: Pair)
    requires i == |data|
    ensures ParsePair(data, i, p) == Good(p)
  {
  }

  lemma ReadsEntry(data: Bytes, i: nat, body: Bytes) returns (s: Span)
    requires FitsInt(data) && HoldsAt(data, i, [0x0a] + Uvarint(|body|) + body)
    ensures s.hi == i + 1 + |Uvarint(|body|)| + |body| <= |data| && s.lo <= s.hi && data[s.lo..s.hi] == body
    ensures ReadTag(data, i) == Good(Tag(1, 2, i + 1)) && ReadSpan(data, i + 1) == Good(s)
  {
    ReadsField(data, i, 0x0a, body);
    s := ReadSpan(data, i + 1).value;
  }

  /** A printed entry is parsed and appended. */
  lemma ParsesOne(data: Bytes, i: nat, p: Pair, acc: seq<Pair>, r: Res<seq<Pair>>) returns (next: nat)
    requires FitsInt(data) && HoldsAt(data, i, EncEntry(p)) && r == ParsePairs(data, i, acc)
    ensures next == i + |EncEntry(p)| && next <= |data| && r == ParsePairs(data, next, acc + [p])
  {
    var s := ReadsEntry(data, i, EncPair(p));
    PairRoundTrip(p);
    EntryStep(data, i, acc, Tag(1, 2, i + 1), s, p);
    next := s.hi;
  }

  lemma ParsesEntry(data: Bytes, i: nat, ps: seq<Pair>, acc: seq<Pair>, r: Res<seq<Pair>>) returns (next: nat)
    requires FitsInt(data) && ps != [] && HoldsAt(data, i, EncPairs(ps)) && r == ParsePairs(data, i, acc)
    ensures next == i + |EncEntry(ps[0])| && HoldsAt(data, next, EncPairs(ps[1..]))
    ensures r == ParsePairs(data, next, acc + [ps[0]])
  {
    HoldsSplit(data, i, EncEntry(ps[0]), EncPairs(ps[1..]));
    next := ParsesOne(data, i, ps[0], acc, r);
  }

  lemma EntryStep(data: Bytes, i: nat, acc: seq<Pair>, t: Tag, s: Span, p: Pair)
    requires i < |data| && ReadTag(data, i) == Good(t) && t.field == 1 && t.wireType == 2
    requires ReadSpan(data, t.next) == Good(s) && ParsePair(data[s.lo..s.hi], 0, Pair([], [])) == Good(p)
    ensures ParsePairs(data, i, acc) == ParsePairs(data, s.hi, acc + [p])
  {
  }

  lemma NextEntry(data: Bytes, i: nat, ps: seq<Pair>, k: nat, r: Res<seq<Pair>>) returns (next: nat)
    requires FitsInt(data) && k < |ps| && HoldsAt(data, i, EncPairs(ps[k..])) && i + |EncPairs(ps[k..])| == |data|
    requires r == ParsePairs(data, i, ps[..k])
    ensures HoldsAt(data, next, EncPairs(ps[k + 1..])) && next + |EncPairs(ps[k + 1..])| == |data|
    ensures r == ParsePairs(data, next, ps[..k + 1])
  {
    assert ps[k..][1..] == ps[k + 1..] && ps[..k] + [ps[k]] == ps[..k + 1];
    next := ParsesEntry(data, i, ps[k..], ps[..k], r);
  }

  lemma {:induction false} ParsesEntries(data: Bytes, i: nat, ps: seq<Pair>, k: nat, r: Res<seq<Pair>>)
    requires FitsInt(data) && k <= |ps| && HoldsAt(data, i, EncPairs(ps[k..])) && i + |EncPairs(ps[k..])| == |data|
    requires r == ParsePairs(data, i, ps[..k])
    ensures r == Good(ps)
    decreases |ps| - k
  {
    if k == |ps| {
      assert ps[..k] == ps;
    } else {
      var next := NextEntry(data, i, ps, k, r);
      ParsesEntries(data, next, ps, k + 1, r);
    }
  }

  /** Parsing what the printer wrote gives back the same pairs. */
  lemma RoundTrip(ps: seq<Pair>)
    requires FitsInt(EncPairs(ps))
    ensures ParsePairs(EncPairs(ps), 0, []) == Good(ps)
  {
    assert HoldsAt(EncPairs(ps), 0, EncPairs(ps));
    assert ps[0..] == ps && ps[..0] == [];
    ParsesEntries(EncPairs(ps), 0, ps, 0, ParsePairs(EncPairs(ps), 0, []));
  }
}

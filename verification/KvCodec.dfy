/** The printer of the Protocol Buffers codec in `internal/kv/kv.pb.go`, which fills its buffer from the back. Nil and
    empty byte strings are not told apart. */
module KvCodec {
  import opened Bytes
  import opened Varint
  import opened Kv

  // ----- Encoding -----

  /** An absent field for an empty string, else tag, length and contents. */
  function EncField(tag: byte, data: Bytes): Bytes {
    if data == [] then [] else [tag] + Uvarint(|data|) + data
  }

  function EncPair(p: Pair): Bytes {
    EncField(0x0a, p.key) + EncField(0x12, p.value)
  }

  function EncEntry(p: Pair): Bytes {
    [0x0a] + Uvarint(|EncPair(p)|) + EncPair(p)
  }

  function EncPairs(ps: seq<Pair>): Bytes {
    if ps == [] then [] else EncEntry(ps[0]) + EncPairs(ps[1..])
  }

  function FieldSize(data: Bytes): nat {
    if |data| > 0 then 1 + |data| + Sov(|data|) else 0
  }

  /** `Pair.Size`. */
  function PairSize(p: Pair): nat {
    FieldSize(p.key) + FieldSize(p.value)
  }

  lemma PairSizeIsLength(p: Pair)
    ensures PairSize(p) == |EncPair(p)|
  {
    SovIsLength(|p.key|);
    SovIsLength(|p.value|);
  }

  function EntriesSize(ps: seq<Pair>): nat {
    if ps == [] then 0 else 1 + PairSize(ps[0]) + Sov(PairSize(ps[0])) + EntriesSize(ps[1..])
  }

  lemma {:induction false} EntriesSizeIsLength(ps: seq<Pair>)
    ensures EntriesSize(ps) == |EncPairs(ps)|
  {
    if ps != [] {
      PairSizeIsLength(ps[0]);
      SovIsLength(PairSize(ps[0]));
      EntriesSizeIsLength(ps[1..]);
    }
  }

  /** `Pairs.Size`. */
  method Size(ps: seq<Pair>) returns (n: nat)
    ensures n == |EncPairs(ps)|
  {
    n := 0;
    var i := 0;
    while i < |ps|
      invariant 0 <= i <= |ps| && n + EntriesSize(ps[i..]) == EntriesSize(ps)
    {
      assert ps[i..][1..] == ps[i + 1..];
      var l := PairSize(ps[i]);
      n := n + 1 + l + Sov(l);
      i := i + 1;
    }
    EntriesSizeIsLength(ps);
  }

  // ----- Backward filling -----

  /** From `lo` on the buffer now holds `data` followed by what was there from `hi` on; nothing before
      `lo` changed. */
  twostate predicate Filled(buf: array<byte>, lo: nat, data: Bytes, hi: nat)
    reads buf
  {
    && lo + |data| == hi <= buf.Length
    && buf[lo..] == data + old(buf[hi..]) && forall i :: 0 <= i < lo ==> buf[i] == old(buf[i])
  }

  method FillBytes(buf: array<byte>, hi: nat, data: Bytes) returns (lo: nat)
    requires |data| <= hi <= buf.Length
    modifies buf
    ensures Filled(buf, lo, data, hi)
  {
    lo := hi - |data|;
    var n := 0;
    while n < |data|
      invariant 0 <= n <= |data|
      invariant forall i :: 0 <= i < n ==> buf[lo + i] == data[i]
      invariant forall i :: 0 <= i < buf.Length && !(lo <= i < lo + n) ==> buf[i] == old(buf[i])
    {
      buf[lo + n] := data[n];
      n := n + 1;
    }
  }

  /** `encodeVarintKv`. */
  method FillVarint(buf: array<byte>, hi: nat, v: nat) returns (lo: nat)
    requires |Uvarint(v)| <= hi <= buf.Length
    modifies buf
    ensures Filled(buf, lo, Uvarint(v), hi)
  {
    SovIsLength(v);
    lo := hi - Sov(v);
    ghost var all := Uvarint(v);
    var n, x := 0, v;
    while x >= 128
      invariant 0 <= n <= |all| && all[n..] == Uvarint(x)
      invariant forall i :: 0 <= i < n ==> buf[lo + i] == all[i]
      invariant forall i :: 0 <= i < buf.Length && !(lo <= i < lo + n) ==> buf[i] == old(buf[i])
      decreases x
    {
      assert all[n..][1..] == all[n + 1..] && all[n..][0] == all[n];
      buf[lo + n] := x % 128 + 128;
      n, x := n + 1, x / 128;
    }
    assert all[n..][0] == all[n];
    buf[lo + n] := x;
  }

  /** A tag and a length. */
  method FillHeader(buf: array<byte>, hi: nat, tag: byte, n: nat) returns (lo: nat)
    requires 1 + |Uvarint(n)| <= hi <= buf.Length
    modifies buf
    ensures Filled(buf, lo, [tag] + Uvarint(n), hi)
  {
    ghost var rest := buf[hi..];
    var mid := FillVarint(buf, hi, n);
    assert buf[mid..] == Uvarint(n) + rest;
    lo := mid - 1;
    buf[lo] := tag;
    assert buf[lo..] == [tag] + buf[mid..];
    assert [tag] + (Uvarint(n) + rest) == ([tag] + Uvarint(n)) + rest;
  }

  method FillField(buf: array<byte>, hi: nat, tag: byte, data: Bytes) returns (lo: nat)
    requires |EncField(tag, data)| <= hi <= buf.Length
    modifies buf
    ensures Filled(buf, lo, EncField(tag, data), hi)
  {
    lo := hi;
    if |data| > 0 {
      ghost var rest := buf[hi..];
      lo := FillBytes(buf, hi, data);
      assert buf[lo..] == data + rest;
      lo := FillHeader(buf, lo, tag, |data|);
      HeaderThenBody([tag], Uvarint(|data|), data, rest);
    }
  }

  /** `Pair.MarshalToSizedBuffer`. */
  method FillPair(buf: array<byte>, hi: nat, p: Pair) returns (lo: nat)
    requires |EncPair(p)| <= hi <= buf.Length
    modifies buf
    ensures Filled(buf, lo, EncPair(p), hi)
  {
    hide EncField;
    lo := FillField(buf, hi, 0x12, p.value);
    lo := FillField(buf, lo, 0x0a, p.key);
    assert EncField(0x0a, p.key) + (EncField(0x12, p.value) + old(buf[hi..])) == EncPair(p) + old(buf[hi..]);
  }

  method FillEntry(buf: array<byte>, hi: nat, p: Pair) returns (lo: nat)
    requires |EncEntry(p)| <= hi <= buf.Length
    modifies buf
    ensures Filled(buf, lo, EncEntry(p), hi)
  {
    ghost var rest := buf[hi..];
    lo := FillPair(buf, hi, p);
    assert buf[lo..] == EncPair(p) + rest;
    lo := FillHeader(buf, lo, 0x0a, hi - lo);
    HeaderThenBody([0x0a], Uvarint(|EncPair(p)|), EncPair(p), rest);
  }

  lemma HeaderThenBody(tag: Bytes, size: Bytes, body: Bytes, rest: Bytes)
    ensures (tag + size) + (body + rest) == (tag + size + body) + rest
  {
  }

  /** `Pairs.Marshal`: the size is exact, so filling from the back ends at offset 0. */
  method Marshal(ps: seq<Pair>) returns (r: Bytes)
    ensures r == EncPairs(ps)
  {
    var size := Size(ps);
    var buf := new byte[size];
    var hi: nat, i := size, |ps|;
    assert ps[|ps|..] == [];
    while i > 0
      invariant 0 <= i <= |ps| && 0 <= hi <= buf.Length
      invariant buf[hi..] == EncPairs(ps[i..])
      invariant hi + |EncPairs(ps[i..])| == size == |EncPairs(ps)|
    {
      assert ps[i - 1..][1..] == ps[i..];
      SuffixFits(ps, i - 1);
      i := i - 1;
      hi := FillEntry(buf, hi, ps[i]);
    }
    assert ps[0..] == ps;
    assert hi == 0;
    r := buf[..];
    assert buf[..] == buf[0..];
  }

  lemma {:induction false} SuffixFits(ps: seq<Pair>, i: nat)
    requires i <= |ps|
    ensures |EncPairs(ps[i..])| <= |EncPairs(ps)|
    decreases i
  {
    if i == 0 {
      assert ps[0..] == ps;
    } else {
      SuffixFits(ps, i - 1);
      assert ps[i - 1..][1..] == ps[i..];
    }
  }
}

/** Base 128 varints, as `encoding/binary` and Protocol Buffers write them: seven bits a byte, least
    significant group first, the high bit set on all bytes but the last. */
module Varint {
  import opened Bytes
  import opened Bits

  function Uvarint(n: nat): (r: Bytes)
    ensures |r| > 0
  {
    if n < 128 then [n] else [n % 128 + 128] + Uvarint(n / 128)
  }

  /** The number that groups of seven bits spell, least significant group first. */
  function GroupsValue(bs: Bytes): nat {
    if bs == [] then 0 else bs[0] % 128 + 128 * GroupsValue(bs[1..])
  }

  /** The groups spell the number, the high bit marks all bytes but the last, and there is no group too many. */
  lemma {:induction false} UvarintSpells(n: nat)
    ensures var r := Uvarint(n);
            && GroupsValue(r) == n && (forall i :: 0 <= i < |r| ==> (r[i] >= 128 <==> i < |r| - 1))
            && (|r| > 1 ==> r[|r| - 1] != 0)
  {
    var r := Uvarint(n);
    if n < 128 {
      assert r[1..] == [];
    } else {
      UvarintSpells(n / 128);
      assert r[1..] == Uvarint(n / 128);
    }
  }

  /** Varints are self-delimiting: what follows one does not change how it reads. */
  lemma {:induction false} UvarintPrefixFree(a: nat, b: nat, x: Bytes, y: Bytes)
    requires Uvarint(a) + x == Uvarint(b) + y
    ensures a == b && x == y
  {
    var s, t := Uvarint(a) + x, Uvarint(b) + y;
    assert s[0] == Uvarint(a)[0] && t[0] == Uvarint(b)[0];
    if a < 128 || b < 128 {
      assert a == b;
      assert s[1..] == x && t[1..] == y;
    } else {
      assert s[1..] == Uvarint(a / 128) + x && t[1..] == Uvarint(b / 128) + y;
      UvarintPrefixFree(a / 128, b / 128, x, y);
    }
  }

  /** `sovKv`: the length of a varint from the bit length of its value. */
  function Sov(n: nat): nat {
    (BitLen(if n % 2 == 0 then n + 1 else n) + 6) / 7
  }

  lemma {:induction false} SovIsLength(n: nat)
    ensures Sov(n) == |Uvarint(n)|
  {
    var m := if n % 2 == 0 then n + 1 else n;
    if n < 128 {
      assert m < 128;
      SmallBitLen(m);
    } else {
      SovIsLength(n / 128);
      BitLenShift(m);
      var d := n / 128;
      assert m / 128 == d;
      OrOneBits(d);
    }
  }

  /** Setting the lowest bit of a positive number does not change its bit length. */
  lemma OrOneBits(d: nat)
    requires d > 0
    ensures BitLen(if d % 2 == 0 then d + 1 else d) == BitLen(d)
  {
    if d % 2 == 0 { assert (d + 1) / 2 == d / 2; }
  }

  lemma SmallBitLen(m: nat)
    requires 0 < m < 128
    ensures 1 <= BitLen(m) <= 7
  {
    BitLenBounds(m);
    assert Pow2(1) == 2 && Pow2(2) == 4 && Pow2(3) == 8;
    assert Pow2(4) == 16 && Pow2(5) == 32 && Pow2(6) == 64 && Pow2(7) == 128;
    if BitLen(m) > 7 { Pow2Grows(7, BitLen(m) - 1); }
  }

  lemma BitLenShift(m: nat)
    requires m >= 128
    ensures BitLen(m) == 7 + BitLen(m / 128)
  {
    assert BitLen(m) == 1 + BitLen(m / 2);
    assert m / 2 / 2 == m / 4 && m / 4 / 2 == m / 8 && m / 8 / 2 == m / 16;
    assert m / 16 / 2 == m / 32 && m / 32 / 2 == m / 64 && m / 64 / 2 == m / 128;
    assert BitLen(m / 2) == 1 + BitLen(m / 4);
    assert BitLen(m / 4) == 1 + BitLen(m / 8);
    assert BitLen(m / 8) == 1 + BitLen(m / 16);
    assert BitLen(m / 16) == 1 + BitLen(m / 32);
    assert BitLen(m / 32) == 1 + BitLen(m / 64);
    assert BitLen(m / 64) == 1 + BitLen(m / 128);
  }

  /** Writes a varint into a buffer at `off` and returns its length. */
  method PutUvarint(buf: array<byte>, off: nat, n: nat) returns (len: nat)
    requires off + |Uvarint(n)| <= buf.Length
    modifies buf
    ensures len == |Uvarint(n)| && buf[..off + len] == old(buf[..off]) + Uvarint(n)
    ensures forall i :: off + len <= i < buf.Length ==> buf[i] == old(buf[i])
  {
    ghost var all := Uvarint(n);
    var v := n;
    len := 0;
    while v >= 128
      invariant len <= |all| && all[len..] == Uvarint(v)
      invariant forall i :: 0 <= i < len ==> buf[off + i] == all[i]
      invariant forall i :: 0 <= i < buf.Length && !(off <= i < off + len) ==> buf[i] == old(buf[i])
      decreases v
    {
      assert all[len..][1..] == all[len + 1..] && all[len..][0] == all[len];
      buf[off + len] := v % 128 + 128;
      v := v / 128;
      len := len + 1;
    }
    assert all[len..][0] == all[len];
    buf[off + len] := v;
    len := len + 1;
  }
}

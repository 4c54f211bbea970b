/** Go's fixed-width integers and the big-endian encodings of package encoding/binary. */
module Words {
  import opened Bytes

  const TWO_63 := 0x8000_0000_0000_0000
  const TWO_64 := 0x1_0000_0000_0000_0000
  const TWO_32 := 0x1_0000_0000

  type int64 = x: int | -TWO_63 <= x < TWO_63
  type uint64 = x: int | 0 <= x < TWO_64
  type uint32 = x: int | 0 <= x < TWO_32

  /** The conversion `int64(x)`; signed arithmetic wraps the same way. */
  function Int64(x: int): int64 {
    (x + TWO_63) % TWO_64 - TWO_63
  }

  /** The conversion `uint64(x)`. */
  function Uint64(x: int): uint64 {
    x % TWO_64
  }

  lemma Int64OfUint64(x: int64)
    ensures Int64(Uint64(x)) == x
  {
    if x < 0 { assert Uint64(x) == x + TWO_64; }
  }

  function Pow256(width: nat): (n: nat)
    ensures n > 0
  {
    if width == 0 then 1 else 256 * Pow256(width - 1)
  }

  lemma WordSizes()
    ensures Pow256(4) == TWO_32 && Pow256(8) == TWO_64
  {
    assert Pow256(2) == 65536;
    assert Pow256(4) == TWO_32;
    assert Pow256(6) == TWO_32 * 65536;
  }

  /** The `width` low bytes of n, most significant first. */
  function BigEndian(n: nat, width: nat): (b: Bytes)
    ensures |b| == width
  {
    if width == 0 then [] else BigEndian(n / 256, width - 1) + [n % 256]
  }

  function FromBigEndian(b: Bytes): nat {
    if b == [] then 0 else 256 * FromBigEndian(b[..|b| - 1]) + b[|b| - 1]
  }

  lemma {:induction false} BigEndianRoundTrip(n: nat, width: nat)
    requires n < Pow256(width)
    ensures FromBigEndian(BigEndian(n, width)) == n
  {
    if width > 0 {
      BigEndianRoundTrip(n / 256, width - 1);
      assert BigEndian(n, width)[..width - 1] == BigEndian(n / 256, width - 1);
    }
  }

  lemma {:induction false} BigEndianUnique(b: Bytes)
    ensures FromBigEndian(b) < Pow256(|b|) && BigEndian(FromBigEndian(b), |b|) == b
  {
    if b != [] {
      BigEndianUnique(b[..|b| - 1]);
      assert b == b[..|b| - 1] + [b[|b| - 1]];
    }
  }

  /** Equal-length strings compare by their first parts, then by their last ones. */
  lemma {:induction false} LessOfConcat(a: Bytes, c: Bytes, b: Bytes, d: Bytes)
    requires |a| == |b|
    ensures Less(a + c, b + d) <==> Less(a, b) || (a == b && Less(c, d))
    decreases |a|
  {
    if a == [] {
      assert a + c == c && b + d == d;
    } else {
      assert (a + c)[1..] == a[1..] + c && (b + d)[1..] == b[1..] + d;
      LessOfConcat(a[1..], c, b[1..], d);
      assert a == [a[0]] + a[1..] && b == [b[0]] + b[1..];
    }
  }

  /** Big-endian words compare as the numbers they encode. */
  lemma {:induction false} BigEndianOrder(n: nat, m: nat, width: nat)
    requires n < Pow256(width) && m < Pow256(width)
    ensures Less(BigEndian(n, width), BigEndian(m, width)) <==> n < m
  {
    if width > 0 {
      BigEndianOrder(n / 256, m / 256, width - 1);
      BigEndianRoundTrip(n / 256, width - 1);
      BigEndianRoundTrip(m / 256, width - 1);
      LessOfConcat(BigEndian(n / 256, width - 1), [n % 256], BigEndian(m / 256, width - 1), [m % 256]);
      assert Less([n % 256], [m % 256]) <==> n % 256 < m % 256;
    }
  }
}

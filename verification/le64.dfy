/**
  The primitive wire value of the protocol: a signed 64-bit integer written as
  8 bytes of two's complement, least significant byte first (Go's
  `binary.Write(conn, binary.LittleEndian, int64(..))` and `binary.Read`).
*/
module LittleEndian {

  type byte = x: int | 0 <= x < 256

  const TwoTo63: int := 0x8000_0000_0000_0000
  const TwoTo64: int := 0x1_0000_0000_0000_0000

  /** Bytes in one int64 field. */
  const Width: nat := 8

  /** Values representable by Go's `int64`. */
  predicate IsInt64(n: int) {
    -TwoTo63 <= n < TwoTo63
  }

  function Pow256(k: nat): (p: nat)
    ensures p >= 1
  {
    if k == 0 then 1 else 256 * Pow256(k - 1)
  }

  /** The `k` low-order bytes of `u`, least significant first. */
  function EncodeUnsigned(u: nat, k: nat): (b: seq<byte>)
    ensures |b| == k
  {
    if k == 0 then [] else [u % 256] + EncodeUnsigned(u / 256, k - 1)
  }

  /** The unsigned number whose little-endian bytes are `b`. */
  function DecodeUnsigned(b: seq<byte>): (u: nat)
    ensures u < Pow256(|b|)
  {
    if |b| == 0 then 0 else b[0] + 256 * DecodeUnsigned(b[1..])
  }

  lemma {:induction false} DecodeEncodeUnsigned(u: nat, k: nat)
    requires u < Pow256(k)
    ensures DecodeUnsigned(EncodeUnsigned(u, k)) == u
  {
    if k > 0 {
      var b := EncodeUnsigned(u, k);
      assert b[1..] == EncodeUnsigned(u / 256, k - 1);
      DecodeEncodeUnsigned(u / 256, k - 1);
    }
  }

  lemma {:induction false} EncodeDecodeUnsigned(b: seq<byte>)
    ensures EncodeUnsigned(DecodeUnsigned(b), |b|) == b
  {
    if |b| > 0 {
      var u := DecodeUnsigned(b);
      assert u % 256 == b[0];
      assert u / 256 == DecodeUnsigned(b[1..]);
      EncodeDecodeUnsigned(b[1..]);
    }
  }

  lemma Pow256Of8()
    ensures Pow256(8) == TwoTo64
  {
    assert Pow256(4) == 0x1_0000_0000;
  }

  /** The 8 wire bytes of a signed 64-bit value. */
  function EncodeInt64(n: int): (b: seq<byte>)
    requires IsInt64(n)
    ensures |b| == 8
  {
    EncodeUnsigned(if n < 0 then n + TwoTo64 else n, Width)
  }

  /** The signed 64-bit value carried by 8 wire bytes. */
  function DecodeInt64(b: seq<byte>): (n: int)
    requires |b| == 8
    ensures IsInt64(n)
    ensures n < 0 <==> b[7] >= 128
  {
    Pow256Of8();
    var u := DecodeUnsigned(b);
    TopByte(b);
    if u >= TwoTo63 then u - TwoTo64 else u
  }

  /** The sign of an 8-byte value is decided by its last (most significant) byte. */
  lemma TopByte(b: seq<byte>)
    requires |b| == 8
    ensures DecodeUnsigned(b) >= TwoTo63 <==> b[7] >= 128
  {
    var u := DecodeUnsigned(b);
    var lo := DecodeUnsigned(b[..7]);
    SplitLast(b);
    assert u == lo + Pow256(7) * b[7];
    assert Pow256(7) * 128 == TwoTo63;
  }

  lemma {:induction false} SplitLast(b: seq<byte>)
    requires |b| > 0
    ensures DecodeUnsigned(b) == DecodeUnsigned(b[..|b| - 1]) + Pow256(|b| - 1) * b[|b| - 1]
  {
    if |b| > 1 {
      var n := |b|;
      SplitLast(b[1..]);
      assert b[1..][..n - 2] == b[..n - 1][1..];
      var p := Pow256(n - 2);
      assert Pow256(n - 1) == 256 * p;
      assert 256 * (p * b[n - 1]) == (256 * p) * b[n - 1];
    }
  }

  /** Reading back what was written yields the same integer. */
  lemma DecodeEncodeInt64(n: int)
    requires IsInt64(n)
    ensures DecodeInt64(EncodeInt64(n)) == n
  {
    Pow256Of8();
    DecodeEncodeUnsigned(if n < 0 then n + TwoTo64 else n, Width);
  }

  /** Every 8-byte block is the encoding of the integer it decodes to. */
  lemma EncodeDecodeInt64(b: seq<byte>)
    requires |b| == 8
    ensures EncodeInt64(DecodeInt64(b)) == b
  {
    Pow256Of8();
    EncodeDecodeUnsigned(b);
  }

  /** Distinct integers have distinct encodings, so sentinels cannot be confused. */
  lemma EncodeInt64Injective(m: int, n: int)
    requires IsInt64(m) && IsInt64(n)
    ensures EncodeInt64(m) == EncodeInt64(n) <==> m == n
  {
    if EncodeInt64(m) == EncodeInt64(n) {
      DecodeEncodeInt64(m);
      DecodeEncodeInt64(n);
    }
  }
}

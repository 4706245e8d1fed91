/**
 * Conversions between big integers and secp256k1 scalars (feldman_vss/src/util/interop.rs).
 * A scalar is its 32-byte big-endian encoding; `Scalar::to_bytes` and
 * `Scalar::from_bytes_unchecked` pass those bytes through unchanged.
 */
module Interop {
  import opened Modular
  import opened BigEndian

  /** The order `n` of the secp256k1 group, section 2.4.1 of SEC 2 (version 2.0). */
  const Order: nat := 0xFFFF_FFFF_FFFF_FFFF_FFFF_FFFF_FFFF_FFFE_BAAE_DCE6_AF48_A03B_BFD2_5E8C_D036_4141

  /** A scalar: exactly 32 bytes, most significant first. */
  type Scalar = bs: seq<byte> | |bs| == 32 witness Zeros(32)

  /** The group order has 32 bytes, the first of them nonzero. */
  lemma OrderBounds()
    ensures Pow256(31) < Order < Pow256(32)
  {
    assert Pow256(2) == 0x1_0000;
    Pow256Add(2, 2);
    Pow256Add(4, 4);
    Pow256Add(8, 8);
    Pow256Add(16, 16);
    assert Pow256(32) == 256 * Pow256(31);
  }

  /** `Scalar::to_bigint`: the unsigned big-endian value of the 32 bytes. */
  function ToBigInt(s: Scalar): (v: nat)
    ensures v < Pow256(32)
  {
    Value(s)
  }

  /** Keep the low 32 bytes of a longer encoding, left-pad a shorter one with zeros. */
  function Fit32(src: seq<byte>): (r: Scalar)
  {
    if |src| > 32 then src[|src| - 32..] else Zeros(32 - |src|) + src
  }

  /** The low `|low|` bytes of an encoding are its value modulo `256^|low|`. */
  lemma LowBytesValue(high: seq<byte>, low: seq<byte>)
    ensures Value(high + low) % Pow256(|low|) == Value(low)
  {
    var a, m, q, r := Value(high + low), Pow256(|low|), Value(high), Value(low);
    ValueConcat(high, low);
    assert a == q * m + r && r < m;
    ModUniquePositive(a, m, q, r);
  }

  /** Left-padding to `k` bytes keeps the value, which is already below `256^k`. */
  lemma PaddedValue(src: seq<byte>, k: nat)
    requires |src| <= k
    ensures Value(Zeros(k - |src|) + src) == Value(src) == Value(src) % Pow256(k)
  {
    var z, v, m := Zeros(k - |src|), Value(src), Pow256(k);
    ValueConcat(z, src);
    ValueZeros(k - |src|);
    assert Value(z + src) == 0 * Pow256(|src|) + v;
    Pow256Monotone(|src|, k);
    ModSmall(v, m);
  }

  /** Fitting into 32 bytes keeps the value modulo `256^32`; padding keeps it unchanged. */
  lemma Fit32Value(src: seq<byte>)
    ensures Value(Fit32(src)) == Value(src) % Pow256(32)
  {
    if |src| > 32 {
      var high, low := src[..|src| - 32], src[|src| - 32..];
      assert src == high + low;
      LowBytesValue(high, low);
    } else {
      PaddedValue(src, 32);
    }
  }

  /** `BigInt::to_scalar`: reduce modulo the group order, encode, fit into 32 bytes. */
  function ToScalar(x: int): (r: Scalar)
  {
    Fit32(ToBytes(x % Order))
  }

  /**
   * After the reduction the encoding never has more than 32 bytes, so the truncating
   * branch of `to_scalar` is never taken.
   */
  lemma NoTruncation(x: int)
    ensures |ToBytes(x % Order)| <= 32
  {
    var v := x % Order;
    ToBytesSpec(v);
    OrderBounds();
    var n := |ToBytes(v)|;
    if n > 32 {
      Pow256Monotone(32, n - 1);
      assert false;
    }
  }

  /** Decoding a converted integer gives the integer reduced modulo the group order. */
  lemma ToScalarValue(x: int)
    ensures ToBigInt(ToScalar(x)) == x % Order
  {
    var v := x % Order;
    ToBytesSpec(v);
    Fit32Value(ToBytes(v));
    OrderBounds();
    ModSmall(v, Pow256(32));
  }

  /** Two integers convert to the same scalar exactly when they agree modulo the group order. */
  lemma ToScalarModOrder(x: int, y: int)
    ensures ToScalar(x) == ToScalar(y) <==> x % Order == y % Order
  {
    ToScalarValue(x);
    ToScalarValue(y);
  }

  /**
   * A canonical scalar (its value below the group order) survives `to_bigint` followed
   * by `to_scalar` (interop.rs:60-66).
   */
  lemma ScalarRoundTrip(s: Scalar)
    requires ToBigInt(s) < Order
    ensures ToScalar(ToBigInt(s)) == s
  {
    var v := ToBigInt(s);
    ModSmall(v, Order);
    ToScalarValue(v);
    ValueInjective(ToScalar(v), s);
  }
}

/**
 * The older scalar conversion (feldman_vss/src/interop_util.rs): reduce modulo the group
 * order and `copy_from_slice` the minimal big-endian encoding into a 32-byte buffer,
 * which panics unless the encoding has exactly 32 bytes. `to_bigint` there is the same
 * decoding as `Interop.ToBigInt`.
 */
module InteropUtil {
  import opened Wrappers
  import opened BigEndian
  import opened Interop

  /** `BigInt::to_scalar`: `None` where `copy_from_slice` panics on a length mismatch. */
  function ToScalar(x: int): (r: Option<Scalar>)
  {
    var bvec := ToBytes(x % Order);
    if |bvec| == 32 then Some(bvec) else None
  }

  /**
   * The conversion succeeds exactly when the reduced value has 32 significant bytes, so
   * it panics on every reduced value below `256^31`, zero included.
   */
  lemma ToScalarDefined(x: int)
    ensures ToScalar(x).Some? <==> Pow256(31) <= x % Order
  {
    OrderBounds();
    ToBytesLength(x % Order, 32);
  }

  /**
   * When it succeeds, it agrees with the padding conversion, and decoding gives the
   * integer reduced modulo the group order.
   */
  lemma ToScalarAgrees(x: int)
    requires ToScalar(x).Some?
    ensures ToScalar(x).value == Interop.ToScalar(x)
    ensures ToBigInt(ToScalar(x).value) == x % Order
  {
    ToBytesSpec(x % Order);
    ToScalarValue(x);
    ValueInjective(ToScalar(x).value, Interop.ToScalar(x));
  }
}

/**
 * Unsigned big-endian byte strings, as `num-bigint` reads and writes them for the
 * scalar conversions: `BigInt::from_bytes_be(Sign::Plus, bytes)` and the magnitude
 * half of `BigInt::to_bytes_be`, the minimal encoding (a single zero byte for zero).
 */
module BigEndian {
  newtype byte = x: int | 0 <= x < 256

  /** `256^k`. */
  function Pow256(k: nat): (r: nat)
    ensures r >= 1
  {
    if k == 0 then 1 else 256 * Pow256(k - 1)
  }

  /** The value of `bs`, most significant byte first. */
  function Value(bs: seq<byte>): (v: nat)
    ensures v < Pow256(|bs|)
  {
    if |bs| == 0 then 0 else Value(bs[..|bs| - 1]) * 256 + bs[|bs| - 1] as int
  }

  /** The minimal big-endian encoding of `v`: no leading zero byte, and `[0]` for zero. */
  function ToBytes(v: nat): (bs: seq<byte>)
    decreases v
  {
    if v < 256 then [v as byte] else ToBytes(v / 256) + [(v % 256) as byte]
  }

  /** `k` zero bytes. */
  function Zeros(k: nat): (bs: seq<byte>)
    ensures |bs| == k && forall i :: 0 <= i < k ==> bs[i] == 0
  {
    seq(k, _ => 0 as byte)
  }

  lemma {:induction false} Pow256Add(i: nat, j: nat)
    ensures Pow256(i + j) == Pow256(i) * Pow256(j)
  {
    if i > 0 {
      Pow256Add(i - 1, j);
      assert Pow256(i + j) == 256 * Pow256(i - 1 + j);
    }
  }

  lemma {:induction false} Pow256Monotone(i: nat, j: nat)
    requires i <= j
    ensures Pow256(i) <= Pow256(j)
  {
    if i < j {
      Pow256Monotone(i, j - 1);
    }
  }

  /** Concatenation shifts the front part by the length of the back part. */
  lemma {:induction false} ValueConcat(a: seq<byte>, b: seq<byte>)
    ensures Value(a + b) == Value(a) * Pow256(|b|) + Value(b)
    decreases |b|
  {
    if |b| == 0 {
      assert a + b == a;
    } else {
      var b' := b[..|b| - 1];
      var last := b[|b| - 1];
      assert (a + b)[..|a + b| - 1] == a + b';
      ValueConcat(a, b');
      ShiftAlgebra(Value(a), Pow256(|b'|), Value(b'), last as int);
    }
  }

  lemma ShiftAlgebra(x: int, q: int, y: int, d: int)
    ensures (x * q + y) * 256 + d == x * (256 * q) + (y * 256 + d)
  {
  }

  /** Leading zero bytes do not change the value. */
  lemma {:induction false} ValueZeros(k: nat)
    ensures Value(Zeros(k)) == 0
  {
    if k > 0 {
      assert Zeros(k)[..k - 1] == Zeros(k - 1);
      ValueZeros(k - 1);
    }
  }

  /** Two encodings of the same length and the same value are the same bytes. */
  lemma {:induction false} ValueInjective(a: seq<byte>, b: seq<byte>)
    requires |a| == |b| && Value(a) == Value(b)
    ensures a == b
  {
    if |a| > 0 {
      var n := |a|;
      var va, vb := Value(a[..n - 1]), Value(b[..n - 1]);
      assert va * 256 + a[n - 1] as int == vb * 256 + b[n - 1] as int;
      ValueInjective(a[..n - 1], b[..n - 1]);
      assert a == a[..n - 1] + [a[n - 1]] && b == b[..n - 1] + [b[n - 1]];
    }
  }

  /**
   * Decoding undoes the encoding, the encoding has no leading zero byte unless it is the
   * single byte of zero, and its length is the number of base-256 digits of `v`.
   */
  lemma {:induction false} ToBytesSpec(v: nat)
    ensures Value(ToBytes(v)) == v
    ensures |ToBytes(v)| >= 1 && (ToBytes(v)[0] == 0 <==> v == 0)
    ensures |ToBytes(v)| == 1 || Pow256(|ToBytes(v)| - 1) <= v
    decreases v
  {
    var bs := ToBytes(v);
    if v >= 256 {
      var front := ToBytes(v / 256);
      ToBytesSpec(v / 256);
      assert bs[..|bs| - 1] == front;
      assert Value(bs) == (v / 256) * 256 + v % 256;
      assert bs[0] == front[0];
      if |front| > 1 {
        assert Pow256(|bs| - 1) == 256 * Pow256(|front| - 1);
        assert 256 * Pow256(|front| - 1) <= 256 * (v / 256);
      }
    }
  }

  /** For `k >= 2`, the encoding of `v` takes exactly `k` bytes when `256^(k-1) <= v < 256^k`. */
  lemma ToBytesLength(v: nat, k: nat)
    requires k >= 2
    ensures |ToBytes(v)| == k <==> Pow256(k - 1) <= v < Pow256(k)
  {
    var n := |ToBytes(v)|;
    ToBytesSpec(v);
    assert v < Pow256(n);
    if n < k {
      Pow256Monotone(n, k - 1);
    } else if n > k {
      Pow256Monotone(k, n - 1);
    }
    if n == 1 {
      Pow256Monotone(1, k - 1);
    }
  }
}

/**
 * Integer facts shared by the whole model.
 *
 * Rust's `rem_euclid` / `div_euclid` on `BigInt` are Euclidean: the remainder is
 * never negative and is smaller than the magnitude of the divisor, whatever the
 * signs. Dafny's `%` and `/` on `int` follow the same convention, so
 * `x.rem_euclid(m)` is written `x % m` throughout.
 */
module Modular {

  function Abs(x: int): (r: nat) { if x < 0 then -x else x }

  /** `a` and `b` leave the same Euclidean remainder modulo `m`. */
  ghost predicate Cong(a: int, b: int, m: int)
    requires m != 0
  {
    a % m == b % m
  }

  ghost predicate IsPrime(p: int)
  {
    p > 1 && forall d :: 1 < d < p ==> p % d != 0
  }

  /** Mathematical power with a natural exponent. */
  function Pow(b: int, e: nat): (r: int)
  {
    if e == 0 then 1 else b * Pow(b, e - 1)
  }

  lemma MulAtLeast(m: nat, t: nat)
    requires t >= 1
    ensures m * t >= m
  {
    if t > 1 {
      MulAtLeast(m, t - 1);
      assert m * t == m * (t - 1) + m;
    }
  }

  lemma MulNonZeroMagnitude(m: int, t: int)
    requires m != 0 && t != 0
    ensures Abs(m * t) >= Abs(m)
  {
    MulAtLeast(Abs(m), Abs(t));
    assert Abs(m * t) == Abs(m) * Abs(t) by {
      if m < 0 && t < 0 { assert m * t == (-m) * (-t); }
      else if m < 0 { assert -(m * t) == (-m) * t; }
      else if t < 0 { assert -(m * t) == m * (-t); }
    }
  }

  /** The Euclidean remainder is the unique `r` in `[0, |m|)` with `a == m*q + r`. */
  lemma ModUnique(a: int, m: int, q: int, r: int)
    requires m != 0
    requires a == m * q + r && 0 <= r < Abs(m)
    ensures a % m == r && a / m == q
  {
    var q0, r0 := a / m, a % m;
    assert m * (q - q0) == r0 - r;
    if q != q0 {
      MulNonZeroMagnitude(m, q - q0);
      assert false;
    }
  }

  /** `ModUnique` for a positive modulus. */
  lemma ModUniquePositive(a: int, m: int, q: int, r: int)
    requires m > 0 && a == q * m + r && 0 <= r < m
    ensures a % m == r && a / m == q
  {
    ModUnique(a, m, q, r);
  }

  /** A value already in `[0, m)` is its own remainder. */
  lemma ModSmall(a: int, m: int)
    requires 0 <= a < m
    ensures a % m == a
  {
    ModUnique(a, m, 0, a);
  }

  lemma ModAddMultiple(a: int, m: int, k: int)
    requires m != 0
    ensures (a + m * k) % m == a % m
  {
    ModUnique(a + m * k, m, a / m + k, a % m);
  }

  lemma ModMultiple(m: int, k: int)
    requires m != 0
    ensures (m * k) % m == 0
  {
    ModAddMultiple(0, m, k);
  }

  lemma ModIdempotent(a: int, m: int)
    requires m != 0
    ensures (a % m) % m == a % m
  {
    ModUnique(a % m, m, 0, a % m);
  }

  /** Divisibility as the Euclidean remainder being zero, with its witness. */
  lemma DividesWitness(a: int, m: int)
    requires m != 0 && a % m == 0
    ensures a == m * (a / m)
  {
  }

  lemma CongFromMultiple(a: int, b: int, m: int, k: int)
    requires m != 0 && a - b == m * k
    ensures Cong(a, b, m)
  {
    ModAddMultiple(b, m, k);
  }

  lemma MultipleFromCong(a: int, b: int, m: int)
    requires m != 0 && Cong(a, b, m)
    ensures a - b == m * (a / m - b / m)
  {
  }

  lemma CongMod(a: int, m: int)
    requires m != 0
    ensures Cong(a % m, a, m)
  {
    ModIdempotent(a, m);
  }

  lemma CongAdd(a: int, b: int, c: int, d: int, m: int)
    requires m != 0 && Cong(a, b, m) && Cong(c, d, m)
    ensures Cong(a + c, b + d, m)
  {
    MultipleFromCong(a, b, m);
    MultipleFromCong(c, d, m);
    CongFromMultiple(a + c, b + d, m, (a / m - b / m) + (c / m - d / m));
  }

  lemma CongMul(a: int, b: int, c: int, d: int, m: int)
    requires m != 0 && Cong(a, b, m) && Cong(c, d, m)
    ensures Cong(a * c, b * d, m)
  {
    var ka, kc := a / m - b / m, c / m - d / m;
    MultipleFromCong(a, b, m);
    MultipleFromCong(c, d, m);
    assert a * c - b * d == m * (ka * c + b * kc) by {
      assert a == b + m * ka;
      assert c == d + m * kc;
    }
    CongFromMultiple(a * c, b * d, m, ka * c + b * kc);
  }

  lemma CongPow(a: int, b: int, e: nat, m: int)
    requires m != 0 && Cong(a, b, m)
    ensures Cong(Pow(a, e), Pow(b, e), m)
  {
    if e > 0 {
      CongPow(a, b, e - 1, m);
      CongMul(a, b, Pow(a, e - 1), Pow(b, e - 1), m);
    }
  }

  lemma PowAdd(b: int, e1: nat, e2: nat)
    ensures Pow(b, e1 + e2) == Pow(b, e1) * Pow(b, e2)
  {
    if e1 > 0 {
      PowAdd(b, e1 - 1, e2);
    }
  }

  lemma PowMul(a: int, b: int, e: nat)
    ensures Pow(a * b, e) == Pow(a, e) * Pow(b, e)
  {
    if e > 0 {
      PowMul(a, b, e - 1);
      calc {
        Pow(a * b, e);
        (a * b) * (Pow(a, e - 1) * Pow(b, e - 1));
        (a * Pow(a, e - 1)) * (b * Pow(b, e - 1));
      }
    }
  }

  /** Squaring the base halves the exponent. */
  lemma PowSquare(b: int, k: nat)
    ensures Pow(b * b, k) == Pow(b, 2 * k)
  {
    PowMul(b, b, k);
    PowAdd(b, k, k);
  }
}

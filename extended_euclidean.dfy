/**
 * The field-arithmetic kernel: the iterative extended Euclidean algorithm with
 * Euclidean division, and `modinv` / `moddiv` built on it
 * (modulo_arithmetic/src/extended_euclidean.rs).
 */
module ExtendedEuclidean {
  import opened Wrappers
  import opened Modular

  /** One row of the Euclidean table (`ExtendedEuclideanObject`): `r == a*x + b*y`. */
  datatype Row = Row(r: int, x: int, y: int)

  /** `ExtendedEuclideanResult`: `gcd == a*bezoutX + b*bezoutY`, and the reduced pair. */
  datatype ExtendedEuclideanResult =
    ExtendedEuclideanResult(gcd: int, bezoutX: int, bezoutY: int, reducedA: int, reducedB: int)

  /** One step of the loop: `(q, r) = prev.r.div_rem_euclid(curr.r)`, then shift the rows. */
  function Step(prev: Row, curr: Row): (r: Row)
    requires curr.r != 0
  {
    var q := prev.r / curr.r;
    Row(prev.r % curr.r, prev.x - q * curr.x, prev.y - q * curr.y)
  }

  /** The `while curr.r != 0` loop, as a function of the two rows it starts from. */
  function EuclidLoop(prev: Row, curr: Row): (rows: (Row, Row))
    decreases Abs(curr.r)
  {
    if curr.r == 0 then (prev, curr) else EuclidLoop(curr, Step(prev, curr))
  }

  /** Flip the sign of `v` unless it already agrees with the sign of `s`. */
  function SignLike(s: int, v: int): (r: int)
  {
    if (s < 0) != (v < 0) then -v else v
  }

  /** What `algo_extended_euclidean(a, b)` returns. */
  function ExtEuclid(a: int, b: int): (e: ExtendedEuclideanResult)
  {
    var (prev, curr) := EuclidLoop(Row(a, 1, 0), Row(b, 0, 1));
    ExtendedEuclideanResult(prev.r, prev.x, prev.y, SignLike(a, curr.y), SignLike(b, curr.x))
  }

  /** Both rows satisfy the Bezout relation and the 2x2 coefficient matrix is unimodular. */
  ghost predicate RowsInvariant(a: int, b: int, prev: Row, curr: Row)
  {
    && prev.r == a * prev.x + b * prev.y
    && curr.r == a * curr.x + b * curr.y
    && (prev.x * curr.y - prev.y * curr.x == 1 || prev.x * curr.y - prev.y * curr.x == -1)
  }

  lemma StepKeepsInvariant(a: int, b: int, prev: Row, curr: Row)
    requires curr.r != 0 && RowsInvariant(a, b, prev, curr)
    ensures RowsInvariant(a, b, curr, Step(prev, curr))
    ensures 0 <= Step(prev, curr).r < Abs(curr.r)
  {
    var q := prev.r / curr.r;
    var next := Step(prev, curr);
    assert prev.r == curr.r * q + next.r;
    BezoutStep(a, b, prev.r, prev.x, prev.y, curr.r, curr.x, curr.y, q);
    DetStep(prev.x, prev.y, curr.x, curr.y, q);
  }

  /** Subtracting `q` times one Bezout row from another gives a Bezout row. */
  lemma BezoutStep(a: int, b: int, pr: int, px: int, py: int, cr: int, cx: int, cy: int, q: int)
    requires pr == a * px + b * py && cr == a * cx + b * cy
    ensures pr - q * cr == a * (px - q * cx) + b * (py - q * cy)
  {
    calc {
      a * (px - q * cx) + b * (py - q * cy);
      (a * px + b * py) - q * (a * cx + b * cy);
    }
  }

  /** The row operation flips the sign of the determinant. */
  lemma DetStep(px: int, py: int, cx: int, cy: int, q: int)
    ensures cx * (py - q * cy) - cy * (px - q * cx) == -(px * cy - py * cx)
  {
    calc {
      cx * (py - q * cy) - cy * (px - q * cx);
      cx * py - cy * px;
    }
  }

  /** The loop keeps the Bezout relation on both rows (extended_euclidean.rs:35, 40, 42-48). */
  lemma {:induction false} EuclidLoopInvariant(a: int, b: int, prev: Row, curr: Row)
    requires RowsInvariant(a, b, prev, curr)
    ensures RowsInvariant(a, b, EuclidLoop(prev, curr).0, EuclidLoop(prev, curr).1)
    ensures EuclidLoop(prev, curr).1.r == 0
    decreases Abs(curr.r)
  {
    if curr.r != 0 {
      StepKeepsInvariant(a, b, prev, curr);
      EuclidLoopInvariant(a, b, curr, Step(prev, curr));
    }
  }

  /** Once the second remainder is non-negative and the first positive, the gcd stays positive. */
  lemma {:induction false} EuclidLoopPositive(prev: Row, curr: Row)
    requires prev.r > 0 && curr.r >= 0
    ensures EuclidLoop(prev, curr).0.r > 0
    decreases Abs(curr.r)
  {
    if curr.r != 0 {
      EuclidLoopPositive(curr, Step(prev, curr));
    }
  }

  /** With `curr.r == 0`, the final rows recover the inputs from the gcd. */
  lemma FinalRows(a: int, b: int, prev: Row, curr: Row)
    requires RowsInvariant(a, b, prev, curr) && curr.r == 0
    ensures a * (prev.x * curr.y - prev.y * curr.x) == curr.y * prev.r
    ensures b * (prev.x * curr.y - prev.y * curr.x) == -curr.x * prev.r
  {
    calc {
      curr.y * prev.r;
      curr.y * (a * prev.x + b * prev.y) - prev.y * (a * curr.x + b * curr.y);
      a * (prev.x * curr.y - prev.y * curr.x);
    }
    calc {
      -curr.x * prev.r;
      prev.x * (a * curr.x + b * curr.y) - curr.x * (a * prev.x + b * prev.y);
      b * (prev.x * curr.y - prev.y * curr.x);
    }
  }

  /** `a == det * c * g` with `det == ±1`, and `SignLike(a, c)` has the sign of `a`: so `a == |g| * SignLike(a, c)`. */
  lemma ReducedValue(a: int, c: int, g: int, det: int)
    requires det == 1 || det == -1
    requires a * det == c * g
    ensures a == Abs(g) * SignLike(a, c)
  {
    var s := SignLike(a, c);
    assert Abs(s) == Abs(c);
    assert Abs(a) == Abs(c) * Abs(g) by {
      assert a == det * (c * g);
      if c < 0 && g < 0 { assert c * g == (-c) * (-g); }
      else if c < 0 { assert -(c * g) == (-c) * g; }
      else if g < 0 { assert -(c * g) == c * (-g); }
    }
    if a > 0 {
      assert s >= 0;
    } else if a < 0 {
      assert s < 0;
      assert Abs(g) * s == -(Abs(g) * Abs(c));
    }
  }

  /** Which sign the returned gcd has: it is `a` when `b == 0`, `b` when `b` divides `a`, positive otherwise. */
  lemma GcdSign(a: int, b: int)
    ensures b == 0 ==> ExtEuclid(a, b).gcd == a
    ensures b != 0 && a % b == 0 ==> ExtEuclid(a, b).gcd == b
    ensures b != 0 && a % b != 0 ==> ExtEuclid(a, b).gcd > 0
  {
    if b != 0 {
      var prev, curr := Row(a, 1, 0), Row(b, 0, 1);
      var next := Step(prev, curr);
      assert EuclidLoop(prev, curr) == EuclidLoop(curr, next);
      if a % b != 0 {
        assert next.r > 0;
        assert EuclidLoop(curr, next) == EuclidLoop(next, Step(curr, next));
        EuclidLoopPositive(next, Step(curr, next));
      }
    }
  }

  /**
   * The contract of `algo_extended_euclidean` (extended_euclidean.rs:13-19, 49-61):
   * Bezout identity, the reduced pair times `|gcd|` gives back the inputs, the reduced
   * values carry the signs of the inputs and keep their ratio, and the gcd is zero only
   * for two zero inputs and positive whenever `b > 0`.
   */
  lemma ExtEuclidSpec(a: int, b: int)
    ensures var e := ExtEuclid(a, b);
      && e.gcd == a * e.bezoutX + b * e.bezoutY
      && a == Abs(e.gcd) * e.reducedA && b == Abs(e.gcd) * e.reducedB
      && (e.reducedA < 0) == (a < 0) && (e.reducedB < 0) == (b < 0)
      && a * e.reducedB == b * e.reducedA
      && (e.gcd == 0 <==> a == 0 && b == 0)
      && (b > 0 ==> e.gcd > 0)
  {
    var e := ExtEuclid(a, b);
    var (prev, curr) := EuclidLoop(Row(a, 1, 0), Row(b, 0, 1));
    assert RowsInvariant(a, b, prev, curr) && curr.r == 0 by {
      assert RowsInvariant(a, b, Row(a, 1, 0), Row(b, 0, 1));
      EuclidLoopInvariant(a, b, Row(a, 1, 0), Row(b, 0, 1));
    }
    assert a == Abs(e.gcd) * e.reducedA && b == Abs(e.gcd) * e.reducedB by {
      FinalRows(a, b, prev, curr);
      var det := prev.x * curr.y - prev.y * curr.x;
      ReducedValue(a, curr.y, prev.r, det);
      assert b * det == (-curr.x) * prev.r;
      ReducedValue(b, -curr.x, prev.r, det);
      assert SignLike(b, -curr.x) == SignLike(b, curr.x);
    }
    CrossRatio(a, b, Abs(e.gcd), e.reducedA, e.reducedB);
    assert (e.gcd == 0 <==> a == 0 && b == 0) && (b > 0 ==> e.gcd > 0) by {
      GcdSign(a, b);
      if e.gcd == 0 {
        assert a == 0 * e.reducedA;
        assert b == 0 * e.reducedB;
      }
    }
  }

  lemma CrossRatio(a: int, b: int, g: int, ra: int, rb: int)
    requires a == g * ra && b == g * rb
    ensures a * rb == b * ra
  {
    calc {
      a * rb;
      (g * ra) * rb;
      (g * rb) * ra;
      b * ra;
    }
  }

  /**
   * `algo_extended_euclidean`: the loop over the two rows, then the sign
   * normalisation of the reduced pair (extended_euclidean.rs:30-62).
   */
  method AlgoExtendedEuclidean(a: int, b: int) returns (res: ExtendedEuclideanResult)
    ensures res == ExtEuclid(a, b)
    ensures res.gcd == a * res.bezoutX + b * res.bezoutY
    ensures a == Abs(res.gcd) * res.reducedA && b == Abs(res.gcd) * res.reducedB
  {
    var prev := Row(a, 1, 0);
    var curr := Row(b, 0, 1);
    while curr.r != 0
      invariant RowsInvariant(a, b, prev, curr)
      invariant EuclidLoop(prev, curr) == EuclidLoop(Row(a, 1, 0), Row(b, 0, 1))
      decreases Abs(curr.r)
    {
      StepKeepsInvariant(a, b, prev, curr);
      var q, r := prev.r / curr.r, prev.r % curr.r;
      var x := prev.x - q * curr.x;
      var y := prev.y - q * curr.y;
      prev := curr;
      curr := Row(r, x, y);
    }
    if (a < 0) != (curr.y < 0) {
      curr := curr.(y := -curr.y);
    }
    if (b < 0) != (curr.x < 0) {
      curr := curr.(x := -curr.x);
    }
    res := ExtendedEuclideanResult(prev.r, prev.x, prev.y, curr.y, curr.x);
    ExtEuclidSpec(a, b);
  }

  /** `|x| * t == ±1` forces `|x| == 1`. */
  lemma UnitMagnitude(x: int, t: int)
    requires Abs(x) * t == 1 || Abs(x) * t == -1
    ensures Abs(x) == 1
  {
    if x != 0 && t != 0 {
      MulNonZeroMagnitude(Abs(x), t);
    }
  }

  /** For a prime modulus, everything it does not divide is coprime to it: the gcd is exactly 1. */
  lemma PrimeGcdIsOne(a: int, p: int)
    requires IsPrime(p) && a % p != 0
    ensures ExtEuclid(a, p).gcd == 1
  {
    var e := ExtEuclid(a, p);
    ExtEuclidSpec(a, p);
    GcdSign(a, p);
    var g := e.gcd;
    assert g > 0 && p == g * e.reducedB;
    assert e.reducedB >= 1;
    MulAtLeast(g, e.reducedB);
    if g == p {
      ModMultiple(p, e.reducedA);
      assert false;
    } else if g > 1 {
      ModMultiple(g, e.reducedB);
      assert false;
    }
  }

  /** Euclid's lemma: a prime that divides neither factor does not divide the product. */
  lemma PrimeProductNonZero(a: int, b: int, p: int)
    requires IsPrime(p) && a % p != 0 && b % p != 0
    ensures (a * b) % p != 0
  {
    var e := ExtEuclid(a, p);
    PrimeGcdIsOne(a, p);
    ExtEuclidSpec(a, p);
    if (a * b) % p == 0 {
      var k := (a * b) / p;
      DividesWitness(a * b, p);
      calc {
        b;
        b * (a * e.bezoutX + p * e.bezoutY);
        (a * b) * e.bezoutX + p * (b * e.bezoutY);
        (p * k) * e.bezoutX + p * (b * e.bezoutY);
        p * (k * e.bezoutX + b * e.bezoutY);
      }
      ModMultiple(p, k * e.bezoutX + b * e.bezoutY);
      assert false;
    }
  }

  /** `modinv`: panics (`None`) when `p == 0` or the gcd is not 1 (extended_euclidean.rs:77-82). */
  function ModInv(a: int, p: int): (inv: Option<int>)
  {
    if p == 0 then None
    else
      var e := ExtEuclid(a, p);
      if e.gcd != 1 then None else Some(e.bezoutX % p)
  }

  /** A result of `modinv` is an inverse of `a` modulo `p`, reduced into `[0, |p|)`. */
  lemma ModInvSound(a: int, p: int)
    requires ModInv(a, p).Some?
    ensures 0 <= ModInv(a, p).value < Abs(p)
    ensures Cong(a * ModInv(a, p).value, 1, p)
  {
    var e := ExtEuclid(a, p);
    assert a * e.bezoutX + p * e.bezoutY == 1 by {
      ExtEuclidSpec(a, p);
    }
    BezoutInverse(a, p, e.bezoutX, e.bezoutY);
  }

  /** From `a*x + p*y == 1`, `x mod p` is an inverse of `a` modulo `p`. */
  lemma BezoutInverse(a: int, p: int, x: int, y: int)
    requires p != 0 && a * x + p * y == 1
    ensures Cong(a * (x % p), 1, p)
  {
    CongMod(x, p);
    CongMul(a, a, x % p, x, p);
    ModMultiple(p, y);
    CongFromMultiple(a * x, 1, p, -y);
  }

  lemma FactorOut(a: int, p: int, g: int, ra: int, rp: int, x: int, k: int)
    requires a * x - 1 == p * k && a == g * ra && p == g * rp
    ensures g * (ra * x - rp * k) == 1
  {
    calc {
      g * (ra * x - rp * k);
      (g * ra) * x - (g * rp) * k;
      a * x - p * k;
    }
  }

  /**
   * `modinv` succeeds whenever an inverse exists, except for the modulus `-1`, where the
   * gcd comes back as `-1` and the `gcd == 1` assertion fails.
   */
  lemma ModInvComplete(a: int, p: int, x: int)
    requires p != 0 && p != -1 && Cong(a * x, 1, p)
    ensures ModInv(a, p).Some?
  {
    var e := ExtEuclid(a, p);
    ExtEuclidSpec(a, p);
    GcdSign(a, p);
    MultipleFromCong(a * x, 1, p);
    var k := (a * x) / p - 1 / p;
    FactorOut(a, p, Abs(e.gcd), e.reducedA, e.reducedB, x, k);
    UnitMagnitude(e.gcd, e.reducedA * x - e.reducedB * k);
    if e.gcd == -1 {
      assert false;
    }
  }

  /** For a prime modulus, `modinv` succeeds exactly on the values the prime does not divide. */
  lemma ModInvPrime(a: int, p: int)
    requires IsPrime(p)
    ensures ModInv(a, p).Some? <==> a % p != 0
  {
    if a % p != 0 {
      PrimeGcdIsOne(a, p);
    } else if ModInv(a, p).Some? {
      ModInvSound(a, p);
      var v := ModInv(a, p).value;
      ModMultiple(p, a / p);
      CongMul(a, 0, v, v, p);
      assert false;
    }
  }

  /**
   * `moddiv`: divide both operands by their gcd; an exact quotient (`reducedB == 1`) is
   * returned unreduced, otherwise multiply by the Bezout coefficient of `reducedB` against
   * `p`. `rem_euclid` by zero panics, hence `None` for `p == 0` (extended_euclidean.rs:64-75).
   */
  function ModDiv(a: int, b: int, p: int): (q: Option<int>)
  {
    var e := ExtEuclid(a, b);
    if e.reducedB == 1 then Some(e.reducedA)
    else if p == 0 then None
    else Some((e.reducedA * ExtEuclid(e.reducedB, p).bezoutX) % p)
  }

  /** An exact quotient comes back exactly: `b` divides `a` and `b * r == a`. */
  lemma ModDivExact(a: int, b: int, p: int)
    requires ExtEuclid(a, b).reducedB == 1
    ensures ModDiv(a, b, p).Some?
    ensures b > 0 && b * ModDiv(a, b, p).value == a
  {
    ExtEuclidSpec(a, b);
  }

  lemma QuotientFromInverse(a: int, b: int, g: int, ra: int, rb: int, x: int, y: int, p: int)
    requires a == g * ra && b == g * rb && rb * x + p * y == 1
    ensures b * (ra * x) - a == p * (-(a * y))
  {
    calc {
      b * (ra * x);
      (g * ra) * (rb * x);
      a * (1 - p * y);
    }
  }

  /**
   * Otherwise, when the reduced divisor is invertible modulo `p`, the result is the
   * quotient of the reduced pair modulo `p`: `reducedB * r ≡ reducedA`, hence also
   * `b * r ≡ a`, and `r` lies in `[0, |p|)`. The first congruence is the stronger one:
   * when `p` divides the gcd of `a` and `b`, the second holds for every `r`.
   */
  lemma ModDivSound(a: int, b: int, p: int)
    requires p != 0
    requires ExtEuclid(a, b).reducedB != 1
    requires ExtEuclid(ExtEuclid(a, b).reducedB, p).gcd == 1
    ensures ModDiv(a, b, p).Some?
    ensures 0 <= ModDiv(a, b, p).value < Abs(p)
    ensures Cong(ExtEuclid(a, b).reducedB * ModDiv(a, b, p).value, ExtEuclid(a, b).reducedA, p)
    ensures Cong(b * ModDiv(a, b, p).value, a, p)
  {
    var e := ExtEuclid(a, b);
    ExtEuclidSpec(a, b);
    var ra, rb := e.reducedA, e.reducedB;
    var f := ExtEuclid(rb, p);
    ExtEuclidSpec(rb, p);
    var x, y := f.bezoutX, f.bezoutY;
    var r := (ra * x) % p;
    CongMod(ra * x, p);
    assert Cong(rb * r, ra, p) by {
      QuotientFromInverse(ra, rb, 1, ra, rb, x, y, p);
      CongFromMultiple(rb * (ra * x), ra, p, -(ra * y));
      CongMul(rb, rb, r, ra * x, p);
    }
    assert Cong(b * r, a, p) by {
      QuotientFromInverse(a, b, Abs(e.gcd), ra, rb, x, y, p);
      CongFromMultiple(b * (ra * x), a, p, -(a * y));
      CongMul(b, b, r, ra * x, p);
    }
  }

  /** For a prime `p` and a divisor `p` does not divide, `moddiv` returns `r` with `b * r ≡ a (mod p)`. */
  lemma ModDivPrime(a: int, b: int, p: int)
    requires IsPrime(p) && b % p != 0
    ensures ModDiv(a, b, p).Some?
    ensures Cong(b * ModDiv(a, b, p).value, a, p)
  {
    var e := ExtEuclid(a, b);
    ExtEuclidSpec(a, b);
    if e.reducedB == 1 {
      ModDivExact(a, b, p);
    } else {
      if e.reducedB % p == 0 {
        DividesWitness(e.reducedB, p);
        assert b == p * (Abs(e.gcd) * (e.reducedB / p));
        ModMultiple(p, Abs(e.gcd) * (e.reducedB / p));
        assert false;
      }
      PrimeGcdIsOne(e.reducedB, p);
      ModDivSound(a, b, p);
    }
  }

  /** From `g == a*x + b*y` and `a, b == |g| * (ra, rb)`: `ra*x + rb*y` is the sign of `g`. */
  lemma ReducedCombination(a: int, b: int, g: int, ra: int, rb: int, x: int, y: int) returns (sg: int)
    requires g != 0 && g == a * x + b * y
    requires a == Abs(g) * ra && b == Abs(g) * rb
    ensures sg == (if g < 0 then -1 else 1)
    ensures ra * x + rb * y == sg
  {
    sg := if g < 0 then -1 else 1;
    var t := ra * x + rb * y;
    assert Abs(g) * t == g;
    assert Abs(g) * (t - sg) == 0;
    if t != sg {
      MulNonZeroMagnitude(Abs(g), t - sg);
    }
  }

  lemma ReducedCombinationAgain(ra: int, rb: int, h: int, ra2: int, rb2: int, x: int, y: int, sg: int)
    requires ra * x + rb * y == sg
    requires ra == h * ra2 && rb == h * rb2
    ensures h * (ra2 * x + rb2 * y) == sg
  {
  }

  /** The reduced pair is already in lowest terms: reducing it again changes nothing. */
  lemma ReduceIdempotent(a: int, b: int)
    ensures var e := ExtEuclid(a, b);
      ExtEuclid(e.reducedA, e.reducedB).reducedA == e.reducedA
      && ExtEuclid(e.reducedA, e.reducedB).reducedB == e.reducedB
  {
    var e := ExtEuclid(a, b);
    ExtEuclidSpec(a, b);
    var ra, rb := e.reducedA, e.reducedB;
    var f := ExtEuclid(ra, rb);
    ExtEuclidSpec(ra, rb);
    if a == 0 && b == 0 {
      assert ra == 1 && rb == 0 by {
        assert EuclidLoop(Row(a, 1, 0), Row(b, 0, 1)) == (Row(a, 1, 0), Row(b, 0, 1));
      }
      assert EuclidLoop(Row(ra, 1, 0), Row(rb, 0, 1)) == (Row(ra, 1, 0), Row(rb, 0, 1));
    } else {
      var sg := ReducedCombination(a, b, e.gcd, ra, rb, e.bezoutX, e.bezoutY);
      var h := f.gcd;
      ReducedCombinationAgain(ra, rb, Abs(h), f.reducedA, f.reducedB, e.bezoutX, e.bezoutY, sg);
      UnitMagnitude(h, f.reducedA * e.bezoutX + f.reducedB * e.bezoutY);
    }
  }

  /** Dividing out the gcd first gives the same quotient (extended_euclidean.rs:102-112). */
  lemma ModDivReduced(a: int, b: int, p: int)
    ensures var e := ExtEuclid(a, b);
      ModDiv(a, b, p) == ModDiv(e.reducedA, e.reducedB, p)
  {
    ReduceIdempotent(a, b);
  }

  /** The unit test of `algo_extended_euclidean` (extended_euclidean.rs:87-99). */
  lemma ExtEuclidTestVector()
    ensures ExtEuclid(288, 396) == ExtendedEuclideanResult(36, -4, 3, 8, 11)
  {
    var final := (Row(36, -4, 3), Row(0, 11, -8));
    assert EuclidLoop(Row(36, -4, 3), Row(0, 11, -8)) == final;
    assert EuclidLoop(Row(72, 3, -2), Row(36, -4, 3)) == final;
    assert EuclidLoop(Row(108, -1, 1), Row(72, 3, -2)) == final;
    assert EuclidLoop(Row(288, 1, 0), Row(108, -1, 1)) == final;
    assert EuclidLoop(Row(396, 0, 1), Row(288, 1, 0)) == final;
    assert EuclidLoop(Row(288, 1, 0), Row(396, 0, 1)) == final;
  }

  lemma ExtEuclidTwoSeventeen()
    ensures ExtEuclid(2, 17) == ExtendedEuclideanResult(1, -8, 1, 2, 17)
  {
    assert EuclidLoop(Row(1, -8, 1), Row(0, 17, -2)) == (Row(1, -8, 1), Row(0, 17, -2));
    assert EuclidLoop(Row(2, 1, 0), Row(1, -8, 1)) == (Row(1, -8, 1), Row(0, 17, -2));
    assert EuclidLoop(Row(17, 0, 1), Row(2, 1, 0)) == (Row(1, -8, 1), Row(0, 17, -2));
    assert EuclidLoop(Row(2, 1, 0), Row(17, 0, 1)) == (Row(1, -8, 1), Row(0, 17, -2));
  }

  lemma ExtEuclidTwentyEightEight()
    ensures ExtEuclid(28, 8) == ExtendedEuclideanResult(4, 1, -3, 7, 2)
  {
    assert EuclidLoop(Row(4, 1, -3), Row(0, -2, 7)) == (Row(4, 1, -3), Row(0, -2, 7));
    assert EuclidLoop(Row(8, 0, 1), Row(4, 1, -3)) == (Row(4, 1, -3), Row(0, -2, 7));
    assert EuclidLoop(Row(28, 1, 0), Row(8, 0, 1)) == (Row(4, 1, -3), Row(0, -2, 7));
  }

  lemma ExtEuclidSevenTwo()
    ensures ExtEuclid(7, 2) == ExtendedEuclideanResult(1, 1, -3, 7, 2)
  {
    assert EuclidLoop(Row(1, 1, -3), Row(0, -2, 7)) == (Row(1, 1, -3), Row(0, -2, 7));
    assert EuclidLoop(Row(2, 0, 1), Row(1, 1, -3)) == (Row(1, 1, -3), Row(0, -2, 7));
    assert EuclidLoop(Row(7, 1, 0), Row(2, 0, 1)) == (Row(1, 1, -3), Row(0, -2, 7));
  }

  lemma EuclidLoopMinusTwoSeventeenTail()
    ensures EuclidLoop(Row(15, 1, 1), Row(2, -1, 0)) == (Row(1, 8, 1), Row(0, -17, -2))
  {
    assert EuclidLoop(Row(1, 8, 1), Row(0, -17, -2)) == (Row(1, 8, 1), Row(0, -17, -2));
    assert EuclidLoop(Row(2, -1, 0), Row(1, 8, 1)) == (Row(1, 8, 1), Row(0, -17, -2));
  }

  lemma ExtEuclidMinusTwoSeventeen()
    ensures ExtEuclid(-2, 17) == ExtendedEuclideanResult(1, 8, 1, -2, 17)
  {
    EuclidLoopMinusTwoSeventeenTail();
    assert Step(Row(17, 0, 1), Row(15, 1, 1)) == Row(2, -1, 0);
    assert EuclidLoop(Row(17, 0, 1), Row(15, 1, 1)) == (Row(1, 8, 1), Row(0, -17, -2));
    assert Step(Row(-2, 1, 0), Row(17, 0, 1)) == Row(15, 1, 1);
    assert EuclidLoop(Row(-2, 1, 0), Row(17, 0, 1)) == (Row(1, 8, 1), Row(0, -17, -2));
  }

  /** The unit test of `moddiv` (extended_euclidean.rs:101-112), first half: 28/8 is 12 modulo 17. */
  lemma ModDivTestVector()
    ensures ModDiv(28, 8, 17) == Some(12)
  {
    ExtEuclidTwentyEightEight();
    ExtEuclidTwoSeventeen();
    ModUnique(7 * -8, 17, -4, 12);
  }

  /** Second half of the same test: 7/2, the reduced fraction, is 12 modulo 17 as well. */
  lemma ModDivReducedTestVector()
    ensures ModDiv(7, 2, 17) == Some(12)
  {
    ExtEuclidSevenTwo();
    ExtEuclidTwoSeventeen();
    ModUnique(7 * -8, 17, -4, 12);
  }

  /** The unit test of `modinv` (extended_euclidean.rs:114-120): the inverse of -2 modulo 17 is 8. */
  lemma ModInvTestVector()
    ensures ModInv(-2, 17) == Some(8)
  {
    ExtEuclidMinusTwoSeventeen();
  }
}

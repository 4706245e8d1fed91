/**
 * The reconstruction loop of `lagrange_interpolate` (shamir_secret_sharing/src/lib.rs:50-66
 * and shamir_secret_sharing/src/main.rs:73-89) over the residues modulo `p`, and the
 * uniqueness check that precedes it (lib.rs:43-49, main.rs:66-72).
 *
 * The two Rust functions differ only in the division they call (`moddiv` from the
 * modulo_arithmetic crate, or the local `divmod`), so the folds here take the division
 * as a parameter `div(numerator, denominator)`, `None` where it panics. Every
 * `rem_euclid(p)` panics for `p == 0`, which is `None` as well.
 *
 * Correctness is carried over from the rational identity of module Lagrange by clearing
 * denominators: with `N_i = Π_{j != i} x_j` and `D_i = Π_{j != i} (x_j - x_i)`, the
 * weights are `W_i = N_i / D_i`, and the running sum times `Π_{i < m} D_i` is an integer.
 */
module Interpolation {
  import opened Wrappers
  import opened Modular
  import opened ExtendedEuclidean
  import opened Polynomial
  import opened Lagrange

  /* ---------------- the folds computed by the Rust loops ---------------- */

  /**
   * The inner loop: `λ_i` after the nodes `j < m`, skipping `j == i`, each step
   * `λ_i = (λ_i * div(x_j, x_j - x_i)).rem_euclid(p)`.
   */
  function LambdaFold(div: (int, int) -> Option<int>, xs: seq<int>, i: nat, m: nat, p: int): (r: Option<int>)
    requires i < |xs| && m <= |xs|
  {
    if m == 0 then Some(1)
    else
      match LambdaFold(div, xs, i, m - 1, p)
      case None => None
      case Some(l) =>
        if m - 1 == i then Some(l)
        else
          match div(xs[m - 1], xs[m - 1] - xs[i])
          case None => None
          case Some(f) => if p == 0 then None else Some((l * f) % p)
  }

  /**
   * The outer loop: the running sum after the shares `i < m`, each step
   * `sum = (sum + (y_i * λ_i).rem_euclid(p)).rem_euclid(p)`.
   */
  function SumFold(div: (int, int) -> Option<int>, xs: seq<int>, ys: seq<int>, m: nat, p: int): (r: Option<int>)
    requires |ys| == |xs| && m <= |xs|
  {
    if m == 0 then Some(0)
    else
      match SumFold(div, xs, ys, m - 1, p)
      case None => None
      case Some(s) =>
        match LambdaFold(div, xs, m - 1, |xs|, p)
        case None => None
        case Some(l) => if p == 0 then None else Some((s + (ys[m - 1] * l) % p) % p)
  }

  /** A division that never panics on a divisor `p` does not divide, and divides correctly modulo `p`. */
  ghost predicate DivSound(div: (int, int) -> Option<int>, p: int)
  {
    p != 0 && forall n, d :: d % p != 0 ==> div(n, d).Some? && Cong(d * div(n, d).value, n, p)
  }

  /** No two nodes are congruent modulo `p`. */
  ghost predicate DistinctMod(xs: seq<int>, p: int)
    requires p != 0
  {
    forall i, j :: 0 <= i < |xs| && 0 <= j < |xs| && i != j ==> (xs[j] - xs[i]) % p != 0
  }

  lemma DistinctModDistinct(xs: seq<int>, p: int)
    requires p != 0 && DistinctMod(xs, p)
    ensures Distinct(xs)
  {
    forall i, j | 0 <= i < |xs| && 0 <= j < |xs| && i != j
      ensures xs[i] != xs[j]
    {
      assert (xs[j] - xs[i]) % p != 0;
    }
  }

  /* ---------------- clearing denominators ---------------- */

  /** `Π_{j < m, j != i} x_j`. */
  function NumProd(xs: seq<int>, i: nat, m: nat): (r: int)
    requires i < |xs| && m <= |xs|
  {
    if m == 0 then 1
    else if m - 1 == i then NumProd(xs, i, m - 1)
    else NumProd(xs, i, m - 1) * xs[m - 1]
  }

  /** `Π_{j < m, j != i} (x_j - x_i)`. */
  function DenProd(xs: seq<int>, i: nat, m: nat): (r: int)
    requires i < |xs| && m <= |xs|
  {
    if m == 0 then 1
    else if m - 1 == i then DenProd(xs, i, m - 1)
    else DenProd(xs, i, m - 1) * (xs[m - 1] - xs[i])
  }

  /** `b == n / d`, written without division. */
  ghost predicate IsFraction(b: real, d: int, n: int)
  {
    b * (d as real) == n as real
  }

  lemma FractionStep(b: real, d: int, n: int, f: real, y: int, x: int, b': real, d': int, n': int)
    requires IsFraction(b, d, n) && f * ((x - y) as real) == x as real
    requires Times(b', b, f) && d' == d * (x - y) && n' == n * x
    ensures IsFraction(b', d', n')
  {
    RealOfProduct(d, x - y);
    RealOfProduct(n, x);
    calc {
      b' * (d' as real);
      (b * (d as real)) * (f * ((x - y) as real));
    }
  }

  /** The partial basis product is the fraction `NumProd / DenProd`. */
  lemma {:induction false} BasisFraction(xs: seq<int>, i: nat, m: nat)
    requires Distinct(xs) && i < |xs| && m <= |xs|
    ensures IsFraction(Basis(xs, i, m), DenProd(xs, i, m), NumProd(xs, i, m))
  {
    if m > 0 {
      BasisFraction(xs, i, m - 1);
      if m - 1 != i {
        assert xs[m - 1] != xs[i];
        BasisStep(xs, i, m - 1, xs[m - 1], xs[i]);
        FracGap(xs[m - 1], xs[i]);
        FractionStep(Basis(xs, i, m - 1), DenProd(xs, i, m - 1), NumProd(xs, i, m - 1), Frac(xs[m - 1], xs[i]),
          xs[i], xs[m - 1], Basis(xs, i, m), DenProd(xs, i, m), NumProd(xs, i, m));
      }
    }
  }

  /** `Π_{i < m} D_i`. */
  function CommonDen(xs: seq<int>, m: nat): (r: int)
    requires m <= |xs|
  {
    if m == 0 then 1 else CommonDen(xs, m - 1) * DenProd(xs, m - 1, |xs|)
  }

  /** `(Σ_{i < m} v_i W_i) * Π_{i < m} D_i`, accumulated over the integers. */
  function CommonNum(xs: seq<int>, vs: seq<int>, m: nat): (r: int)
    requires |vs| == |xs| && m <= |xs|
  {
    if m == 0 then 0
    else CommonNum(xs, vs, m - 1) * DenProd(xs, m - 1, |xs|)
         + vs[m - 1] * NumProd(xs, m - 1, |xs|) * CommonDen(xs, m - 1)
  }

  /** `cn == s * cd` between an integer, a rational and an integer. */
  ghost predicate Scaled(cn: int, s: real, cd: int)
  {
    cn as real == s * (cd as real)
  }

  lemma CommonStep(cn: int, s: real, cd: int, w: real, dd: int, nn: int, v: int, cn': int, s': real, cd': int)
    requires Scaled(cn, s, cd) && IsFraction(w, dd, nn)
    requires cn' == cn * dd + v * nn * cd && cd' == cd * dd && s' == s + (v as real) * w
    ensures Scaled(cn', s', cd')
  {
    RealOfProduct(cn, dd);
    RealOfProduct(v, nn);
    RealOfProduct(v * nn, cd);
    RealOfProduct(cd, dd);
    calc {
      s' * (cd' as real);
      (s + (v as real) * w) * ((cd as real) * (dd as real));
      (s * (cd as real)) * (dd as real) + (v as real) * (w * (dd as real)) * (cd as real);
    }
  }

  lemma SumPrefixStep(t: seq<real>, m: nat)
    requires 0 < m <= |t|
    ensures Sum(t[..m]) == Sum(t[..m - 1]) + t[m - 1]
  {
    assert t[..m][..m - 1] == t[..m - 1];
  }

  /** The integer accumulator is the partial rational sum times the common denominator. */
  lemma {:induction false} CommonNumValue(xs: seq<int>, vs: seq<int>, m: nat)
    requires Distinct(xs) && |vs| == |xs| && m <= |xs|
    ensures Scaled(CommonNum(xs, vs, m), Sum(Terms(xs, vs)[..m]), CommonDen(xs, m))
  {
    if m == 0 {
      assert Terms(xs, vs)[..0] == [];
    } else {
      var i := m - 1;
      CommonNumValue(xs, vs, i);
      BasisFraction(xs, i, |xs|);
      SumPrefixStep(Terms(xs, vs), m);
      TermAt(xs, vs, i);
      CommonStep(CommonNum(xs, vs, i), Sum(Terms(xs, vs)[..i]), CommonDen(xs, i), Weight(xs, i),
        DenProd(xs, i, |xs|), NumProd(xs, i, |xs|), vs[i],
        CommonNum(xs, vs, m), Sum(Terms(xs, vs)[..m]), CommonDen(xs, m));
    }
  }

  /* ---------------- the folds modulo a prime ---------------- */

  lemma LambdaStepCong(l: int, d: int, n: int, f: int, dj: int, xj: int, p: int, l': int, d': int, n': int)
    requires p != 0 && Cong(l * d, n, p) && Cong(dj * f, xj, p)
    requires l' == (l * f) % p && d' == d * dj && n' == n * xj
    ensures Cong(l' * d', n', p)
  {
    CongMod(l * f, p);
    CongMul(l', l * f, d', d', p);
    assert (l * f) * d' == (l * d) * (dj * f);
    CongMul(l * d, n, dj * f, xj, p);
  }

  /** The inner loop never fails and computes `λ_i ≡ N_i / D_i (mod p)`. */
  lemma {:induction false} LambdaFoldSound(div: (int, int) -> Option<int>, xs: seq<int>, i: nat, m: nat, p: int)
    requires DivSound(div, p) && DistinctMod(xs, p) && i < |xs| && m <= |xs|
    ensures LambdaFold(div, xs, i, m, p).Some?
    ensures Cong(LambdaFold(div, xs, i, m, p).value * DenProd(xs, i, m), NumProd(xs, i, m), p)
  {
    if m > 0 {
      LambdaFoldSound(div, xs, i, m - 1, p);
      if m - 1 != i {
        var l := LambdaFold(div, xs, i, m - 1, p).value;
        var dj := xs[m - 1] - xs[i];
        assert dj % p != 0;
        var f := div(xs[m - 1], dj).value;
        LambdaStepCong(l, DenProd(xs, i, m - 1), NumProd(xs, i, m - 1), f, dj, xs[m - 1], p,
          LambdaFold(div, xs, i, m, p).value, DenProd(xs, i, m), NumProd(xs, i, m));
      }
    } else {
      assert 1 * 1 == 1;
    }
  }

  lemma SumStepCong(s: int, cd: int, cn: int, y: int, v: int, l: int, dd: int, nn: int, p: int,
                    s': int, cd': int, cn': int)
    requires p != 0 && Cong(s * cd, cn, p) && Cong(l * dd, nn, p) && Cong(y, v, p)
    requires s' == (s + (y * l) % p) % p && cd' == cd * dd && cn' == cn * dd + v * nn * cd
    ensures Cong(s' * cd', cn', p)
  {
    var t := y * l;
    assert Cong(s', s + t, p) by {
      CongMod(t, p);
      CongAdd(s, s, t % p, t, p);
      CongMod(s + t % p, p);
    }
    assert Cong(s' * cd', (s + t) * cd', p) by {
      CongMul(s', s + t, cd', cd', p);
    }
    assert (s + t) * cd' == (s * cd) * dd + (y * (l * dd)) * cd by {
      SumStepAlgebra(s, y, l, cd, dd, t, cd');
    }
    assert Cong((s * cd) * dd + (y * (l * dd)) * cd, cn * dd + (v * nn) * cd, p) by {
      CongMul(s * cd, cn, dd, dd, p);
      CongMul(y, v, l * dd, nn, p);
      CongMul(y * (l * dd), v * nn, cd, cd, p);
      CongAdd((s * cd) * dd, cn * dd, (y * (l * dd)) * cd, (v * nn) * cd, p);
    }
  }

  lemma SumStepAlgebra(s: int, y: int, l: int, cd: int, dd: int, t: int, cd': int)
    requires t == y * l && cd' == cd * dd
    ensures (s + t) * cd' == (s * cd) * dd + (y * (l * dd)) * cd
  {
  }

  /** The outer loop never fails, stays reduced, and computes `sum ≡ CommonNum / CommonDen (mod p)`. */
  lemma {:induction false} SumFoldSound(div: (int, int) -> Option<int>, xs: seq<int>, ys: seq<int>, vs: seq<int>,
                                        m: nat, p: int)
    requires DivSound(div, p) && DistinctMod(xs, p) && |ys| == |xs| && |vs| == |xs| && m <= |xs|
    requires forall i :: 0 <= i < |xs| ==> Cong(ys[i], vs[i], p)
    ensures SumFold(div, xs, ys, m, p).Some?
    ensures 0 <= SumFold(div, xs, ys, m, p).value < Abs(p)
    ensures Cong(SumFold(div, xs, ys, m, p).value * CommonDen(xs, m), CommonNum(xs, vs, m), p)
  {
    if m > 0 {
      var i := m - 1;
      SumFoldSound(div, xs, ys, vs, i, p);
      LambdaFoldSound(div, xs, i, |xs|, p);
      SumStepCong(SumFold(div, xs, ys, i, p).value, CommonDen(xs, i), CommonNum(xs, vs, i), ys[i], vs[i],
        LambdaFold(div, xs, i, |xs|, p).value, DenProd(xs, i, |xs|), NumProd(xs, i, |xs|), p,
        SumFold(div, xs, ys, m, p).value, CommonDen(xs, m), CommonNum(xs, vs, m));
    } else {
      ModMultiple(p, 0);
      assert 0 * 1 == 0;
    }
  }

  /** For a prime `p`, no denominator vanishes modulo `p`. */
  lemma {:induction false} DenProdNonZero(xs: seq<int>, i: nat, m: nat, p: int)
    requires IsPrime(p) && DistinctMod(xs, p) && i < |xs| && m <= |xs|
    ensures DenProd(xs, i, m) % p != 0
  {
    if m == 0 {
      ModUnique(1, p, 0, 1);
    } else {
      DenProdNonZero(xs, i, m - 1, p);
      if m - 1 != i {
        PrimeProductNonZero(DenProd(xs, i, m - 1), xs[m - 1] - xs[i], p);
      }
    }
  }

  lemma {:induction false} CommonDenNonZero(xs: seq<int>, m: nat, p: int)
    requires IsPrime(p) && DistinctMod(xs, p) && m <= |xs|
    ensures CommonDen(xs, m) % p != 0
  {
    if m == 0 {
      ModUnique(1, p, 0, 1);
    } else {
      CommonDenNonZero(xs, m - 1, p);
      DenProdNonZero(xs, m - 1, |xs|, p);
      PrimeProductNonZero(CommonDen(xs, m - 1), DenProd(xs, m - 1, |xs|), p);
    }
  }

  /** A factor that a prime does not divide can be cancelled from a congruence. */
  lemma CancelPrime(a: int, b: int, d: int, p: int)
    requires IsPrime(p) && d % p != 0 && Cong(a * d, b * d, p)
    ensures Cong(a, b, p)
  {
    var e := a - b;
    var k := (a * d) / p - (b * d) / p;
    MultipleFromCong(a * d, b * d, p);
    assert e * d == p * k by {
      assert e * d == a * d - b * d;
    }
    if e % p != 0 {
      PrimeProductNonZero(e, d, p);
      ModMultiple(p, k);
      assert false;
    }
    CongFromMultiple(a, b, p, e / p);
  }

  /** Clearing the denominators of the rational identity. */
  lemma ScaledToInt(cn: int, c0: int, cd: int)
    requires Scaled(cn, c0 as real, cd)
    ensures cn == c0 * cd
  {
    RealOfProduct(c0, cd);
  }

  /**
   * The reconstruction is exact: for a prime `p`, a sound division, nodes pairwise
   * different modulo `p`, and values congruent to those of a polynomial with at most as
   * many coefficients as there are nodes, the loop returns `c(0)` reduced modulo `p`.
   */
  lemma InterpolationCorrect(div: (int, int) -> Option<int>, xs: seq<int>, ys: seq<int>, c: seq<int>, p: int)
    requires IsPrime(p) && DivSound(div, p) && DistinctMod(xs, p)
    requires |ys| == |xs| >= 1 && |c| <= |xs|
    requires forall i :: 0 <= i < |xs| ==> Cong(ys[i], Eval(c, xs[i]), p)
    ensures SumFold(div, xs, ys, |xs|, p) == Some(Eval(c, 0) % p)
  {
    var n := |xs|;
    var vs := SamplesExist(c, xs);
    DistinctModDistinct(xs, p);
    LagrangeAtZero(xs, vs, c);
    CommonNumValue(xs, vs, n);
    assert Terms(xs, vs)[..n] == Terms(xs, vs);
    ScaledToInt(CommonNum(xs, vs, n), Eval(c, 0), CommonDen(xs, n));
    SumFoldSound(div, xs, ys, vs, n, p);
    CommonDenNonZero(xs, n, p);
    var s := SumFold(div, xs, ys, n, p).value;
    CancelPrime(s, Eval(c, 0), CommonDen(xs, n), p);
    ModUnique(s, p, 0, s);
  }

  /* ---------------- the Rust function ---------------- */

  /** Why `lagrange_interpolate` panics: a repeated id, or an arithmetic panic in the loop. */
  datatype InterpolationError = DuplicateId | ArithmeticPanic

  /** What `lagrange_interpolate` returns for the ids `xs` and the values `ys`. */
  ghost function Interpolate(div: (int, int) -> Option<int>, xs: seq<int>, ys: seq<int>, p: int): (r: Result<int, InterpolationError>)
    requires |ys| == |xs|
  {
    if !Distinct(xs) then Err(DuplicateId)
    else
      match SumFold(div, xs, ys, |xs|, p)
      case None => Err(ArithmeticPanic)
      case Some(s) => Ok(s)
  }

  /**
   * The uniqueness check: collect the ids into a set and compare its size with the
   * number of shares.
   */
  method CheckUniqueness(ids: seq<int>) returns (unique: bool)
    ensures unique <==> Distinct(ids)
  {
    var seen: set<int> := {};
    var i := 0;
    while i < |ids|
      invariant 0 <= i <= |ids|
      invariant seen == set k | 0 <= k < i :: ids[k]
      invariant |seen| <= i
      invariant |seen| == i <==> Distinct(ids[..i])
    {
      ghost var prefix, next := ids[..i], ids[..i + 1];
      if ids[i] in seen {
        var k :| 0 <= k < i && ids[k] == ids[i];
        assert next[k] == next[i];
      } else {
        if Distinct(prefix) {
          forall a, b | 0 <= a < i + 1 && 0 <= b < i + 1 && a != b
            ensures next[a] != next[b]
          {
            if a == i {
              assert ids[b] in seen;
            } else if b == i {
              assert ids[a] in seen;
            } else {
              assert prefix[a] != prefix[b];
            }
          }
        }
        if Distinct(next) {
          forall a, b | 0 <= a < i && 0 <= b < i && a != b
            ensures prefix[a] != prefix[b]
          {
            assert next[a] != next[b];
          }
        }
      }
      seen := seen + {ids[i]};
      i := i + 1;
    }
    assert ids[..|ids|] == ids;
    unique := |seen| == |ids|;
  }

  lemma {:induction false} LambdaFoldNoneStays(div: (int, int) -> Option<int>, xs: seq<int>, i: nat, m: nat, m': nat, p: int)
    requires i < |xs| && m <= m' <= |xs| && LambdaFold(div, xs, i, m, p).None?
    ensures LambdaFold(div, xs, i, m', p).None?
    decreases m' - m
  {
    if m < m' {
      LambdaFoldNoneStays(div, xs, i, m + 1, m', p);
    }
  }

  lemma {:induction false} SumFoldNoneStays(div: (int, int) -> Option<int>, xs: seq<int>, ys: seq<int>, m: nat, m': nat, p: int)
    requires |ys| == |xs| && m <= m' <= |xs| && SumFold(div, xs, ys, m, p).None?
    ensures SumFold(div, xs, ys, m', p).None?
    decreases m' - m
  {
    if m < m' {
      SumFoldNoneStays(div, xs, ys, m + 1, m', p);
    }
  }

  /** A failure of the inner loop for share `i` makes the whole computation fail. */
  lemma LambdaFailureFails(div: (int, int) -> Option<int>, xs: seq<int>, ys: seq<int>, i: nat, j: nat, p: int)
    requires |ys| == |xs| && i < |xs| && j <= |xs|
    requires LambdaFold(div, xs, i, j, p).None?
    ensures SumFold(div, xs, ys, |xs|, p).None?
  {
    LambdaFoldNoneStays(div, xs, i, j, |xs|, p);
    SumFoldNoneStays(div, xs, ys, i + 1, |xs|, p);
  }

  /**
   * Every partial sum after at least one share has been reduced modulo `p`, whatever the
   * division, the modulus or the ids: it lies in `[0, |p|)`.
   */
  lemma SumFoldRange(div: (int, int) -> Option<int>, xs: seq<int>, ys: seq<int>, m: nat, p: int)
    requires |ys| == |xs| && 1 <= m <= |xs| && SumFold(div, xs, ys, m, p).Some?
    ensures 0 <= SumFold(div, xs, ys, m, p).value < Abs(p)
  {
  }

  /** A result of `lagrange_interpolate` with at least one share lies in `[0, |p|)`. */
  lemma InterpolateRange(div: (int, int) -> Option<int>, xs: seq<int>, ys: seq<int>, p: int)
    requires |ys| == |xs| >= 1 && Interpolate(div, xs, ys, p).Ok?
    ensures 0 <= Interpolate(div, xs, ys, p).value < Abs(p)
  {
    SumFoldRange(div, xs, ys, |xs|, p);
  }

  /**
   * `lagrange_interpolate`: the uniqueness check, then the two nested loops. Every
   * panic of the Rust code is an `Err` here. With at least one share, a result is
   * reduced into `[0, |p|)` for any division and any modulus.
   */
  method Reconstruct(div: (int, int) -> Option<int>, xs: seq<int>, ys: seq<int>, p: int)
    returns (r: Result<int, InterpolationError>)
    requires |ys| == |xs|
    ensures r == Interpolate(div, xs, ys, p)
    ensures r.Ok? && |xs| >= 1 ==> 0 <= r.value < Abs(p)
  {
    var unique := CheckUniqueness(xs);
    if !unique {
      return Err(DuplicateId);
    }
    var sum := 0;
    var i := 0;
    while i < |xs|
      invariant 0 <= i <= |xs|
      invariant SumFold(div, xs, ys, i, p) == Some(sum)
    {
      var lambda := 1;
      var j := 0;
      while j < |xs|
        invariant 0 <= j <= |xs|
        invariant LambdaFold(div, xs, i, j, p) == Some(lambda)
      {
        if i != j {
          var frac := div(xs[j], xs[j] - xs[i]);
          if frac.None? || p == 0 {
            LambdaFailureFails(div, xs, ys, i, j + 1, p);
            return Err(ArithmeticPanic);
          }
          lambda := (lambda * frac.value) % p;
        }
        j := j + 1;
      }
      if p == 0 {
        SumFoldNoneStays(div, xs, ys, i + 1, |xs|, p);
        return Err(ArithmeticPanic);
      }
      var term := (ys[i] * lambda) % p;
      sum := (sum + term) % p;
      i := i + 1;
    }
    r := Ok(sum);
    if |xs| >= 1 {
      InterpolateRange(div, xs, ys, p);
    }
  }

  /** No shares: the sum is never reduced and comes back as 0, whatever `p` is. */
  lemma InterpolateEmpty(div: (int, int) -> Option<int>, p: int)
    ensures Interpolate(div, [], [], p) == Ok(0)
  {
  }

  /** A zero modulus panics as soon as there is one share to reduce. */
  lemma InterpolateZeroModulus(div: (int, int) -> Option<int>, xs: seq<int>, ys: seq<int>)
    requires |ys| == |xs| >= 1 && Distinct(xs)
    ensures Interpolate(div, xs, ys, 0) == Err(ArithmeticPanic)
  {
    assert SumFold(div, xs, ys, 1, 0).None?;
    SumFoldNoneStays(div, xs, ys, 1, |xs|, 0);
  }
}

/**
 * The older copy of the sharing scheme (shamir_secret_sharing/src/main.rs) and the local
 * arithmetic it runs on (shamir_secret_sharing/src/modulo_arithmetic.rs): a two-output
 * `extended_euclid`, and a `divmod` that insists on `p > 0` and a divisor `p` does not
 * divide, then multiplies by the Bezout coefficient of the divisor against `p`.
 *
 * `Share` and `share_secret` in main.rs are the same as `ShamirShare` and `share_secret` in
 * lib.rs, and the local `eval_polynomial` is the same Horner loop, so this module reuses
 * them; only the division differs.
 */
module ShamirLegacy {
  import opened Wrappers
  import opened Modular
  import opened ExtendedEuclidean
  import opened Lagrange
  import opened Interpolation
  import opened Shamir

  /** `Share` (main.rs:24-31): an id and a value, field for field a `ShamirShare`. */
  type Share = ShamirShare

  /* ---------------- extended_euclid ---------------- */

  /**
   * `extended_euclid` (modulo_arithmetic.rs:27-41): the same table of remainders as
   * `algo_extended_euclidean`, kept in six variables, returning the Bezout pair of the
   * last nonzero remainder, which divides both inputs.
   */
  method ExtendedEuclid(a0: int, b0: int) returns (xr: int, yr: int)
    ensures xr == ExtEuclid(a0, b0).bezoutX && yr == ExtEuclid(a0, b0).bezoutY
    ensures a0 * xr + b0 * yr == ExtEuclid(a0, b0).gcd
    ensures var g := a0 * xr + b0 * yr;
      a0 == Abs(g) * ExtEuclid(a0, b0).reducedA && b0 == Abs(g) * ExtEuclid(a0, b0).reducedB
  {
    var a, b := a0, b0;
    var x, xPrev, y, yPrev := 0, 1, 1, 0;
    while b != 0
      invariant RowsInvariant(a0, b0, Row(a, xPrev, yPrev), Row(b, x, y))
      invariant EuclidLoop(Row(a, xPrev, yPrev), Row(b, x, y)) == EuclidLoop(Row(a0, 1, 0), Row(b0, 0, 1))
      decreases Abs(b)
    {
      StepKeepsInvariant(a0, b0, Row(a, xPrev, yPrev), Row(b, x, y));
      var q, r := a / b, a % b;
      a, b := b, r;
      x, xPrev := xPrev - q * x, x;
      y, yPrev := yPrev - q * y, y;
    }
    xr, yr := xPrev, yPrev;
    ExtEuclidSpec(a0, b0);
  }

  /* ---------------- the truncating remainder ---------------- */

  /** The `%` of `BigInt`: the remainder of division rounded toward zero, with the sign of `a`. */
  function TruncRem(a: int, m: int): (r: int)
    requires m != 0
  {
    if a >= 0 then a % Abs(m) else -((-a) % Abs(m))
  }

  /** Euclidean remainders by `m` and by `|m|` agree. */
  lemma ModAbs(a: int, m: int)
    requires m != 0
    ensures a % Abs(m) == a % m
  {
    if m < 0 {
      var n := -m;
      var q, r := a / n, a % n;
      assert a == n * q + r && 0 <= r < n;
      assert n * q == m * (-q);
      ModUnique(a, m, -q, r);
    }
  }

  /** `m` divides `a` exactly when it divides `-a`. */
  lemma NegMultiple(a: int, m: int)
    requires m != 0 && a % m == 0
    ensures (-a) % m == 0
  {
    DividesWitness(a, m);
    assert -a == m * (-(a / m));
    ModMultiple(m, -(a / m));
  }

  /**
   * The truncating remainder is smaller than `m` in magnitude, is zero or has the sign of
   * `a`, differs from `a` by a multiple of `m`, and is zero exactly when the Euclidean
   * remainder is, so the guard of `divmod` is the divisibility test.
   */
  lemma TruncRemSpec(a: int, m: int)
    requires m != 0
    ensures Abs(TruncRem(a, m)) < Abs(m)
    ensures TruncRem(a, m) == 0 || ((TruncRem(a, m) < 0) == (a < 0))
    ensures (a - TruncRem(a, m)) % m == 0
    ensures TruncRem(a, m) == 0 <==> a % m == 0
  {
    var t := TruncRem(a, m);
    if a >= 0 {
      ModAbs(a, m);
      assert a - t == Abs(m) * (a / Abs(m));
      assert a - t == m * (if m < 0 then -(a / Abs(m)) else a / Abs(m));
      ModMultiple(m, if m < 0 then -(a / Abs(m)) else a / Abs(m));
    } else {
      ModAbs(-a, m);
      assert -a - (-a) % Abs(m) == Abs(m) * ((-a) / Abs(m));
      assert a - t == m * (if m < 0 then (-a) / Abs(m) else -((-a) / Abs(m)));
      ModMultiple(m, if m < 0 then (-a) / Abs(m) else -((-a) / Abs(m)));
      if a % m == 0 {
        NegMultiple(a, m);
      }
      if t == 0 {
        NegMultiple(-a, m);
      }
    }
  }

  /* ---------------- divmod ---------------- */

  /**
   * `divmod` (modulo_arithmetic.rs:20-25): panics (`None`) unless `p > 0` and `den % p != 0`;
   * otherwise `num` times the Bezout coefficient of `den` against `p`, reduced.
   */
  function DivMod(num: int, den: int, p: int): (r: Option<int>)
  {
    if p > 0 && TruncRem(den, p) != 0 then Some((num * ExtEuclid(den, p).bezoutX) % p) else None
  }

  /** `divmod` returns exactly when `p > 0` does not divide `den`, and then a value in `[0, p)`. */
  lemma DivModDefined(num: int, den: int, p: int)
    ensures DivMod(num, den, p).Some? <==> p > 0 && den % p != 0
    ensures DivMod(num, den, p).Some? ==> 0 <= DivMod(num, den, p).value < p
  {
    if p > 0 {
      TruncRemSpec(den, p);
    }
  }

  /** For a prime `p`, the result of `divmod` is the quotient: `den * r ≡ num (mod p)`. */
  lemma DivModPrime(num: int, den: int, p: int)
    requires IsPrime(p) && den % p != 0
    ensures DivMod(num, den, p).Some?
    ensures Cong(den * DivMod(num, den, p).value, num, p)
  {
    DivModDefined(num, den, p);
    PrimeGcdIsOne(den, p);
    ExtEuclidSpec(den, p);
    var e := ExtEuclid(den, p);
    var r := DivMod(num, den, p).value;
    assert den * (num * e.bezoutX) - num == num * (den * e.bezoutX - 1);
    assert den * (num * e.bezoutX) - num == p * (-(num * e.bezoutY));
    CongFromMultiple(den * (num * e.bezoutX), num, p, -(num * e.bezoutY));
    CongMod(num * e.bezoutX, p);
    CongMul(den, den, r, num * e.bezoutX, p);
  }

  /** The division main.rs's `lagrange_interpolate` calls: `divmod(num, den, p)`. */
  function LegacyDiv(p: int): (div: (int, int) -> Option<int>)
  {
    (num, den) => DivMod(num, den, p)
  }

  lemma LegacyDivSound(p: int)
    requires IsPrime(p)
    ensures DivSound(LegacyDiv(p), p)
  {
    forall num, den | den % p != 0
      ensures LegacyDiv(p)(num, den).Some? && Cong(den * LegacyDiv(p)(num, den).value, num, p)
    {
      DivModPrime(num, den, p);
    }
  }

  /** Modulo a prime, a factor `p` does not divide cancels from a congruence. */
  lemma CancelFactor(d: int, r: int, r': int, p: int)
    requires IsPrime(p) && d % p != 0 && Cong(d * r, d * r', p)
    ensures Cong(r, r', p)
  {
    MultipleFromCong(d * r, d * r', p);
    var k := (d * r) / p - (d * r') / p;
    assert d * (r - r') == p * k;
    ModMultiple(p, k);
    if (r - r') % p != 0 {
      PrimeProductNonZero(d, r - r', p);
      assert false;
    }
    DividesWitness(r - r', p);
    CongFromMultiple(r, r', p, (r - r') / p);
  }

  /**
   * The two divisions agree modulo a prime: `divmod` is `moddiv` reduced into `[0, p)`
   * (`moddiv` may return an exact quotient unreduced).
   */
  lemma DivModAgreesWithModDiv(num: int, den: int, p: int)
    requires IsPrime(p) && den % p != 0
    ensures DivMod(num, den, p).Some? && ModDiv(num, den, p).Some?
    ensures DivMod(num, den, p).value == ModDiv(num, den, p).value % p
  {
    DivModDefined(num, den, p);
    DivModPrime(num, den, p);
    ModDivPrime(num, den, p);
    var r, r' := DivMod(num, den, p).value, ModDiv(num, den, p).value;
    CancelFactor(den, r, r', p);
    ModSmall(r, p);
  }

  /* ---------------- lagrange_interpolate and main ---------------- */

  /** `lagrange_interpolate` of main.rs (main.rs:59-90), dividing with `divmod`. */
  method LagrangeInterpolate(shares: seq<Share>, p: int) returns (r: Result<int, InterpolationError>)
    ensures r == Interpolate(LegacyDiv(p), Ids(shares), Vals(shares), p)
    ensures r.Ok? && |shares| >= 1 ==> 0 <= r.value < Abs(p)
  {
    r := Reconstruct(LegacyDiv(p), Ids(shares), Vals(shares), p);
  }

  /**
   * Modulo a prime `p > n`, main.rs's interpolation of at least `k` of the shares gives
   * back the secret reduced modulo `p`, or rejects a view that repeats a share.
   */
  lemma ShareThenInterpolate(s: int, k: nat, n: nat, p: int, draws: seq<int>, view: seq<Share>)
    requires IsPrime(p) && k <= n < p && |draws| == (if k == 0 then 0 else k - 1)
    requires forall v :: v in view ==> v in Shares([s] + draws, n, p)
    requires |view| >= k && |view| >= 1
    ensures Interpolate(LegacyDiv(p), Ids(view), Vals(view), p)
         == if Distinct(Ids(view)) then Ok(s % p) else Err(DuplicateId)
  {
    LegacyDivSound(p);
    SharesReconstruct(LegacyDiv(p), s, k, n, p, draws, view);
  }

  /** The secret `main` shares. */
  const Secret: int := 1145141919810893

  /**
   * The three views `main` reconstructs from, for the secret and a prime modulus above it:
   * each gives back the secret unreduced.
   */
  lemma MainViews(p: int, draws: seq<int>)
    requires IsPrime(p) && p > Secret && |draws| == 2
    ensures var shares := Shares([Secret] + draws, 5, p);
      && Interpolate(LegacyDiv(p), Ids(shares[..3]), Vals(shares[..3]), p) == Ok(Secret)
      && Interpolate(LegacyDiv(p), Ids(shares[..4]), Vals(shares[..4]), p) == Ok(Secret)
      && Interpolate(LegacyDiv(p), Ids(shares[..5]), Vals(shares[..5]), p) == Ok(Secret)
  {
    LegacyDivSound(p);
    FirstViewsReconstruct(LegacyDiv(p), Secret, p, draws);
    ModSmall(Secret, p);
    var shares := Shares([Secret] + draws, 5, p);
    assert shares[..5] == shares;
  }

  /** The modulus `main` uses, `2^127 - 1`, is larger than the secret. */
  lemma MainModulus()
    ensures Pow(2, 127) - 1 == 0x7FFF_FFFF_FFFF_FFFF_FFFF_FFFF_FFFF_FFFF
    ensures Pow(2, 127) - 1 > Secret
  {
    PowAdd(2, 1, 2);
    assert Pow(2, 3) == 8;
    PowAdd(2, 3, 4);
    assert Pow(2, 7) == 0x80;
    PowAdd(2, 7, 8);
    assert Pow(2, 15) == 0x8000;
    PowAdd(2, 15, 16);
    assert Pow(2, 31) == 0x8000_0000;
    PowAdd(2, 31, 32);
    assert Pow(2, 63) == 0x8000_0000_0000_0000;
    PowAdd(2, 63, 64);
  }

  /**
   * `main` (main.rs:1-22): share `Secret` five ways with quorum three, then reconstruct
   * from the first three, four and five shares; every reconstruction is the secret itself,
   * for every draw of coefficients, once the modulus is a prime above the secret.
   */
  method ReconstructionChecks(p: int, draws: seq<int>) returns (es: seq<Result<int, InterpolationError>>)
    requires IsPrime(p) && p > Secret && |draws| == 2
    ensures es == [Ok(Secret), Ok(Secret), Ok(Secret)]
  {
    var shares := ShareSecret(Secret, 3, 5, p, draws);
    MainViews(p, draws);
    var all := shares.value;
    var es3 := LagrangeInterpolate(all[..3], p);
    var es4 := LagrangeInterpolate(all[..4], p);
    var es5 := LagrangeInterpolate(all[..5], p);
    es := [es3, es4, es5];
  }
}

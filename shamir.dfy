/**
 * Shamir's secret sharing over the residues modulo `p`
 * (shamir_secret_sharing/src/lib.rs): `share_secret` samples a polynomial whose
 * constant coefficient is the secret and hands out its values at the ids `1..n`;
 * `lagrange_interpolate` recovers the secret from any `k` distinct shares, dividing
 * with `moddiv` from the modulo_arithmetic crate.
 *
 * The random coefficients are a parameter `draws`: the values that
 * `gen_bigint_range(1, p)` returned, in order.
 */
module Shamir {
  import opened Wrappers
  import opened Modular
  import opened ExtendedEuclidean
  import opened Polynomial
  import opened Lagrange
  import opened Interpolation

  /** A share: the id is the point `x`, the value is `f(x) mod p`. */
  datatype ShamirShare = ShamirShare(id: nat, val: int)

  /** Why `share_secret` panics. */
  datatype ShareError =
    | QuorumExceedsShares   // assert!(k <= n)
    | NonPositiveModulus    // assert!(*p > 0)
    | EmptyDrawRange        // gen_bigint_range(1, p) with p <= 1

  function Ids(shares: seq<ShamirShare>): (xs: seq<int>)
    ensures |xs| == |shares| && forall i :: 0 <= i < |shares| ==> xs[i] == shares[i].id
  {
    seq(|shares|, i requires 0 <= i < |shares| => shares[i].id)
  }

  function Vals(shares: seq<ShamirShare>): (ys: seq<int>)
    ensures |ys| == |shares| && forall i :: 0 <= i < |shares| ==> ys[i] == shares[i].val
  {
    seq(|shares|, i requires 0 <= i < |shares| => shares[i].val)
  }

  /** The shares of the polynomial `coefs`: ids `1..n`, values reduced by Horner's rule. */
  function Shares(coefs: seq<int>, n: nat, p: int): (r: seq<ShamirShare>)
    requires p != 0
  {
    seq(n, t requires 0 <= t < n => ShamirShare(t + 1, Horner(coefs, t + 1, p)))
  }

  /**
   * `share_secret`: check the quorum and the modulus, draw `k - 1` coefficients after the
   * secret, and evaluate the polynomial at every id.
   */
  method ShareSecret(s: int, k: nat, n: nat, p: int, draws: seq<int>) returns (r: Result<seq<ShamirShare>, ShareError>)
    requires |draws| == if k == 0 then 0 else k - 1
    ensures k > n ==> r == Err(QuorumExceedsShares)
    ensures k <= n && p <= 0 ==> r == Err(NonPositiveModulus)
    ensures k <= n && p == 1 && k >= 2 ==> r == Err(EmptyDrawRange)
    ensures k <= n && p > 0 && (p > 1 || k < 2) ==> r == Ok(Shares([s] + draws, n, p))
  {
    if k > n {
      return Err(QuorumExceedsShares);
    }
    if p <= 0 {
      return Err(NonPositiveModulus);
    }
    var coefs := [s];
    var t := 1;
    while t < k
      invariant 1 <= t && (k >= 1 ==> t <= k)
      invariant k < 2 ==> t == 1
      invariant t > 1 ==> p > 1
      invariant coefs == [s] + draws[..t - 1]
    {
      if p <= 1 {
        return Err(EmptyDrawRange);
      }
      coefs := coefs + [draws[t - 1]];
      t := t + 1;
    }
    assert t - 1 == |draws| && draws[..|draws|] == draws;
    assert coefs == [s] + draws;
    var shares: seq<ShamirShare> := [];
    var id := 1;
    while id <= n
      invariant 1 <= id <= n + 1
      invariant shares == Shares(coefs, id - 1, p)
    {
      var y := EvalPolynomial(coefs, id, p);
      shares := shares + [ShamirShare(id, y.value)];
      id := id + 1;
    }
    r := Ok(shares);
  }

  /**
   * Every share is the textbook value of the polynomial at its id, reduced into
   * `[0, p)`, and the ids are `1..n`, so no two shares repeat an id.
   */
  lemma SharesAreEvaluations(coefs: seq<int>, n: nat, p: int)
    requires p > 0
    ensures |Shares(coefs, n, p)| == n
    ensures forall t :: 0 <= t < n ==> Shares(coefs, n, p)[t].id == t + 1
    ensures forall t :: 0 <= t < n ==>
      Shares(coefs, n, p)[t].val == PowerSum(coefs, t + 1) % p && 0 <= Shares(coefs, n, p)[t].val < p
    ensures Distinct(Ids(Shares(coefs, n, p)))
  {
    forall t | 0 <= t < n
      ensures Shares(coefs, n, p)[t].val == PowerSum(coefs, t + 1) % p && 0 <= Shares(coefs, n, p)[t].val < p
    {
      HornerSpec(coefs, t + 1, p);
    }
  }

  /** The division `lagrange_interpolate` calls: `moddiv(num, den, p)`. */
  function KernelDiv(p: int): (div: (int, int) -> Option<int>)
  {
    (num, den) => ModDiv(num, den, p)
  }

  /** `lagrange_interpolate` (lib.rs:42-67). */
  method LagrangeInterpolate(shares: seq<ShamirShare>, p: int) returns (r: Result<int, InterpolationError>)
    ensures r == Interpolate(KernelDiv(p), Ids(shares), Vals(shares), p)
    ensures r.Ok? && |shares| >= 1 ==> 0 <= r.value < Abs(p)
  {
    r := Reconstruct(KernelDiv(p), Ids(shares), Vals(shares), p);
  }

  /** Modulo a prime, `moddiv` divides every divisor `p` does not divide. */
  lemma KernelDivSound(p: int)
    requires IsPrime(p)
    ensures DivSound(KernelDiv(p), p)
  {
    forall num, den | den % p != 0
      ensures KernelDiv(p)(num, den).Some? && Cong(den * KernelDiv(p)(num, den).value, num, p)
    {
      ModDivPrime(num, den, p);
    }
  }

  /** A nonzero difference smaller than `p` in magnitude is not a multiple of `p`. */
  lemma SmallNonZero(d: int, p: int)
    requires p > 0 && d != 0 && Abs(d) < p
    ensures d % p != 0
  {
    if d % p == 0 {
      DividesWitness(d, p);
      MulNonZeroMagnitude(p, d / p);
      assert false;
    }
  }

  /**
   * The scheme works for any division that is correct modulo `p`: modulo a prime `p > n`,
   * any view of at least `k` of the shares `share_secret` produced gives back the secret
   * reduced modulo `p`, unless the view repeats a share, which the uniqueness check rejects.
   */
  lemma SharesReconstruct(div: (int, int) -> Option<int>, s: int, k: nat, n: nat, p: int, draws: seq<int>, view: seq<ShamirShare>)
    requires IsPrime(p) && DivSound(div, p) && k <= n < p && |draws| == (if k == 0 then 0 else k - 1)
    requires forall v :: v in view ==> v in Shares([s] + draws, n, p)
    requires |view| >= k && |view| >= 1
    ensures Interpolate(div, Ids(view), Vals(view), p)
         == if Distinct(Ids(view)) then Ok(s % p) else Err(DuplicateId)
  {
    var coefs := [s] + draws;
    var xs, ys := Ids(view), Vals(view);
    if Distinct(xs) {
      forall i | 0 <= i < |view|
        ensures 1 <= xs[i] <= n && ys[i] == Horner(coefs, xs[i], p)
      {
        assert view[i] in view;
      }
      forall i, j | 0 <= i < |xs| && 0 <= j < |xs| && i != j
        ensures (xs[j] - xs[i]) % p != 0
      {
        SmallNonZero(xs[j] - xs[i], p);
      }
      forall i | 0 <= i < |xs|
        ensures Cong(ys[i], Eval(coefs, xs[i]), p)
      {
        HornerIsReducedEval(coefs, xs[i], p);
        CongMod(Eval(coefs, xs[i]), p);
      }
      EvalAtZero(coefs);
      InterpolationCorrect(div, xs, ys, coefs, p);
    }
  }

  /** The same for `moddiv`, the division `lagrange_interpolate` calls. */
  lemma ShareThenInterpolate(s: int, k: nat, n: nat, p: int, draws: seq<int>, view: seq<ShamirShare>)
    requires IsPrime(p) && k <= n < p && |draws| == (if k == 0 then 0 else k - 1)
    requires forall v :: v in view ==> v in Shares([s] + draws, n, p)
    requires |view| >= k && |view| >= 1
    ensures Interpolate(KernelDiv(p), Ids(view), Vals(view), p)
         == if Distinct(Ids(view)) then Ok(s % p) else Err(DuplicateId)
  {
    KernelDivSound(p);
    SharesReconstruct(KernelDiv(p), s, k, n, p, draws, view);
  }

  /**
   * Five shares with quorum three: the first three, the first four and all five give
   * back the secret, for any division that is correct modulo `p`.
   */
  lemma FirstViewsReconstruct(div: (int, int) -> Option<int>, s: int, p: int, draws: seq<int>)
    requires IsPrime(p) && DivSound(div, p) && p > 5 && |draws| == 2
    ensures var shares := Shares([s] + draws, 5, p);
      && Interpolate(div, Ids(shares[..3]), Vals(shares[..3]), p) == Ok(s % p)
      && Interpolate(div, Ids(shares[..4]), Vals(shares[..4]), p) == Ok(s % p)
      && Interpolate(div, Ids(shares), Vals(shares), p) == Ok(s % p)
  {
    var shares := Shares([s] + draws, 5, p);
    SharesAreEvaluations([s] + draws, 5, p);
    var m := 3;
    while m <= 5
      invariant 3 <= m <= 6
      invariant forall m' :: 3 <= m' < m ==>
        Interpolate(div, Ids(shares[..m']), Vals(shares[..m']), p) == Ok(s % p)
    {
      var view := shares[..m];
      assert Distinct(Ids(view)) by {
        forall i, j | 0 <= i < m && 0 <= j < m && i != j
          ensures Ids(view)[i] != Ids(view)[j]
        {
          assert Ids(view)[i] == i + 1 && Ids(view)[j] == j + 1;
        }
      }
      forall v | v in view
        ensures v in shares
      {
      }
      SharesReconstruct(div, s, 3, 5, p, draws, view);
      m := m + 1;
    }
    assert shares[..5] == shares;
  }

  /** The unit test (lib.rs:88-106): three, four and five of five shares with quorum three. */
  lemma ShamirTest(s: int, p: int, draws: seq<int>)
    requires IsPrime(p) && p > 5 && |draws| == 2
    ensures var shares := Shares([s] + draws, 5, p);
      && Interpolate(KernelDiv(p), Ids(shares[..3]), Vals(shares[..3]), p) == Ok(s % p)
      && Interpolate(KernelDiv(p), Ids(shares[..4]), Vals(shares[..4]), p) == Ok(s % p)
      && Interpolate(KernelDiv(p), Ids(shares), Vals(shares), p) == Ok(s % p)
  {
    KernelDivSound(p);
    FirstViewsReconstruct(KernelDiv(p), s, p, draws);
  }
}

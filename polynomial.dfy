/**
 * Polynomials over the integers with coefficients in ascending powers of `x`,
 * and `eval_polynomial`, the reduced Horner evaluation used by both Shamir
 * implementations (shamir_secret_sharing/src/lib.rs:69-77 and the identical
 * shamir_secret_sharing/src/modulo_arithmetic.rs:10-18).
 */
module Polynomial {
  import opened Wrappers
  import opened Modular

  /** The textbook value `Σ c[i] * x^i`. */
  function PowerSum(c: seq<int>, x: int): (r: int)
  {
    if |c| == 0 then 0 else PowerSum(c[..|c| - 1], x) + c[|c| - 1] * Pow(x, |c| - 1)
  }

  /** Horner's rule over the integers: `c[0] + x * (c[1] + x * (...))`. */
  function Eval(c: seq<int>, x: int): (r: int)
  {
    if |c| == 0 then 0 else c[0] + x * Eval(c[1..], x)
  }

  /** Horner's rule reducing modulo `p` after every step, innermost coefficient first. */
  function Horner(c: seq<int>, x: int, p: int): (r: int)
    requires p != 0
  {
    if |c| == 0 then 0 else (Horner(c[1..], x, p) * x + c[0]) % p
  }

  /** Splitting off the constant coefficient of the textbook sum. */
  lemma {:induction false} PowerSumFirst(c: seq<int>, x: int)
    requires |c| > 0
    ensures PowerSum(c, x) == c[0] + x * PowerSum(c[1..], x)
  {
    var n := |c|;
    if n > 1 {
      var init, tail := c[..n - 1], c[1..];
      PowerSumFirst(init, x);
      var q := Pow(x, n - 2);
      assert PowerSum(c, x) == init[0] + x * PowerSum(init[1..], x) + c[n - 1] * (x * q) by {
        assert c[..n - 1] == init && Pow(x, n - 1) == x * q;
      }
      assert PowerSum(tail, x) == PowerSum(init[1..], x) + c[n - 1] * q by {
        assert tail[..n - 2] == init[1..] && tail[n - 2] == c[n - 1];
      }
      assert init[0] == c[0];
      FactorX(c[0], x, PowerSum(init[1..], x), c[n - 1], q, PowerSum(c, x), PowerSum(tail, x));
    } else {
      assert c[..0] == [];
      assert c[1..] == [];
    }
  }

  lemma FactorX(c0: int, x: int, a: int, cl: int, q: int, s: int, t: int)
    requires s == c0 + x * a + cl * (x * q) && t == a + cl * q
    ensures s == c0 + x * t
  {
  }

  /** Horner's rule computes the textbook sum. */
  lemma {:induction false} EvalIsPowerSum(c: seq<int>, x: int)
    ensures Eval(c, x) == PowerSum(c, x)
  {
    if |c| > 0 {
      EvalIsPowerSum(c[1..], x);
      PowerSumFirst(c, x);
    }
  }

  /** Reducing after every step gives the reduced value of the whole polynomial. */
  lemma {:induction false} HornerIsReducedEval(c: seq<int>, x: int, p: int)
    requires p != 0
    ensures Horner(c, x, p) == Eval(c, x) % p
  {
    if |c| > 0 {
      var h := Horner(c[1..], x, p);
      var e := Eval(c[1..], x);
      HornerIsReducedEval(c[1..], x, p);
      CongMod(e, p);
      CongMul(h, e, x, x, p);
      CongAdd(h * x, e * x, c[0], c[0], p);
      CongMod(h * x + c[0], p);
      assert e * x + c[0] == Eval(c, x);
    } else {
      ModMultiple(p, 0);
    }
  }

  /**
   * What `eval_polynomial` promises: the textbook sum `Σ c[i] * x^i` reduced into
   * `[0, |p|)`, and 0 for the empty coefficient list.
   */
  lemma HornerSpec(c: seq<int>, x: int, p: int)
    requires p != 0
    ensures Horner(c, x, p) == PowerSum(c, x) % p
    ensures 0 <= Horner(c, x, p) < Abs(p)
    ensures |c| == 0 ==> Horner(c, x, p) == 0
  {
    HornerIsReducedEval(c, x, p);
    EvalIsPowerSum(c, x);
  }

  /**
   * `eval_polynomial`: the loop over the coefficients in reverse order. Reducing
   * modulo 0 panics in the Rust code, which here is `None`; with no coefficient
   * there is nothing to reduce and the answer is 0 whatever `p` is.
   */
  method EvalPolynomial(coefs: seq<int>, x: int, p: int) returns (r: Option<int>)
    ensures p == 0 ==> r == (if |coefs| == 0 then Some(0) else None)
    ensures p != 0 ==> r == Some(Horner(coefs, x, p))
  {
    var y := 0;
    var i := |coefs|;
    while i > 0
      invariant 0 <= i <= |coefs|
      invariant p != 0 ==> y == Horner(coefs[i..], x, p)
      invariant p == 0 ==> i == |coefs| && y == 0
    {
      if p == 0 {
        return None;
      }
      assert coefs[i - 1..][1..] == coefs[i..];
      y := (y * x + coefs[i - 1]) % p;
      i := i - 1;
    }
    assert coefs[0..] == coefs;
    r := Some(y);
  }

  /**
   * Division by `x - a` with remainder: `c(x) == c(a) + (x - a) * q(x)`, where the
   * quotient `q` has one coefficient fewer.
   */
  function Quot(c: seq<int>, a: int): (r: seq<int>)
  {
    if |c| <= 1 then [] else [Eval(c[1..], a)] + Quot(c[1..], a)
  }

  lemma {:induction false} FactorTheorem(c: seq<int>, a: int, x: int)
    ensures |Quot(c, a)| == (if |c| == 0 then 0 else |c| - 1)
    ensures Eval(c, x) == Eval(c, a) + (x - a) * Eval(Quot(c, a), x)
  {
    if |c| > 1 {
      var t := c[1..];
      var q := Quot(t, a);
      FactorTheorem(t, a, x);
      assert Eval(t, x) == Eval(t, a) + (x - a) * Eval(q, x);
      assert Quot(c, a) == [Eval(t, a)] + q;
      assert ([Eval(t, a)] + q)[1..] == q;
      assert Eval(Quot(c, a), x) == Eval(t, a) + x * Eval(q, x);
      calc {
        Eval(c, x) - Eval(c, a);
        x * Eval(t, x) - a * Eval(t, a);
        x * (Eval(t, a) + (x - a) * Eval(q, x)) - a * Eval(t, a);
        (x - a) * (Eval(t, a) + x * Eval(q, x));
      }
    } else if |c| == 1 {
      assert c[1..] == [];
    }
  }

  /** The value at 0 is the constant coefficient: the secret in Shamir's scheme. */
  lemma EvalAtZero(c: seq<int>)
    ensures Eval(c, 0) == (if |c| == 0 then 0 else c[0])
  {
  }
}

/**
 * Lagrange interpolation at zero, the reconstruction step of Shamir's scheme
 * (`lagrange_interpolate` in shamir_secret_sharing/src/lib.rs:36-67 and in
 * shamir_secret_sharing/src/main.rs:59-90).
 *
 * Both implementations compute
 *     f(0) = Σ_i y_i * Π_{j != i} x_j / (x_j - x_i)     (mod p)
 * with a running product `λ_i` and a running sum, each reduced modulo `p` after
 * every step; they differ only in how a fraction modulo `p` is computed. Those
 * loops are modelled in module Interpolation; this module proves the identity
 * over the rationals that they compute modulo `p`.
 *
 * The correctness proof goes through the rationals: the basis weights
 * `W_i = Π_{j != i} x_j / (x_j - x_i)` sum to one (by Neville's recursion) and
 * reproduce `c(0)` for every polynomial `c` with at most as many coefficients as
 * there are nodes (by the factor theorem). Clearing denominators turns that into
 * an identity between integers, which carries over to the residues modulo a prime.
 */
module Lagrange {
  import opened Polynomial

  ghost predicate Distinct(xs: seq<int>)
  {
    forall i, j :: 0 <= i < |xs| && 0 <= j < |xs| && i != j ==> xs[i] != xs[j]
  }

  /* ---------------- the basis weights over the rationals ---------------- */

  /** One factor `x_j / (x_j - x_i)` of a basis weight. */
  ghost function Frac(xj: int, xi: int): (r: real)
  {
    if xj == xi then 1.0 else (xj as real) / ((xj - xi) as real)
  }

  /** `Π_{j < m, j != i} x_j / (x_j - x_i)`. */
  ghost function Basis(xs: seq<int>, i: nat, m: nat): (r: real)
    requires i < |xs| && m <= |xs|
  {
    if m == 0 then 1.0
    else if m - 1 == i then Basis(xs, i, m - 1)
    else Basis(xs, i, m - 1) * Frac(xs[m - 1], xs[i])
  }

  ghost function Weight(xs: seq<int>, i: nat): (r: real)
    requires i < |xs|
  {
    Basis(xs, i, |xs|)
  }

  /** The weights of all nodes, in order. */
  ghost function Weights(xs: seq<int>): (r: seq<real>)
  {
    seq(|xs|, i requires 0 <= i < |xs| => Weight(xs, i))
  }

  /** The terms `v_i * W_i` of the interpolation sum for the values `v_i` at the nodes. */
  ghost function Terms(xs: seq<int>, vs: seq<int>): (r: seq<real>)
    requires |vs| == |xs|
  {
    seq(|xs|, i requires 0 <= i < |xs| => (vs[i] as real) * Weight(xs, i))
  }

  /** `vs` holds the values of the polynomial `c` at the nodes `xs`. */
  ghost predicate Samples(c: seq<int>, xs: seq<int>, vs: seq<int>)
  {
    |vs| == |xs| && forall i :: 0 <= i < |xs| ==> vs[i] == Eval(c, xs[i])
  }

  ghost function Sum(s: seq<real>): (r: real)
  {
    if |s| == 0 then 0.0 else Sum(s[..|s| - 1]) + s[|s| - 1]
  }

  /** `p * a + q * b == r * c + s * d`, kept whole so that a proof can hand it on unchanged. */
  ghost predicate Linear(p: real, q: real, r: real, s: real, a: real, b: real, c: real, d: real)
  {
    p * a + q * b == r * c + s * d
  }

  /** The pointwise relation `p * A[i] + q * B[i] == r * C[i] + s * D[i]`. */
  ghost predicate Balanced(a: seq<real>, b: seq<real>, c: seq<real>, d: seq<real>, p: real, q: real, r: real, s: real)
  {
    && |a| == |b| == |c| == |d|
    && forall i :: 0 <= i < |a| ==> Linear(p, q, r, s, a[i], b[i], c[i], d[i])
  }

  lemma BalancedStep(p: real, q: real, r: real, s: real,
                     sa: real, sb: real, sc: real, sd: real, a: real, b: real, c: real, d: real,
                     ta: real, tb: real, tc: real, td: real)
    requires Linear(p, q, r, s, sa, sb, sc, sd) && Linear(p, q, r, s, a, b, c, d)
    requires ta == sa + a && tb == sb + b && tc == sc + c && td == sd + d
    ensures Linear(p, q, r, s, ta, tb, tc, td)
  {
  }

  /** Summation is linear: a pointwise relation carries over to the sums. */
  lemma {:induction false} SumBalanced(a: seq<real>, b: seq<real>, c: seq<real>, d: seq<real>,
                                       p: real, q: real, r: real, s: real)
    requires Balanced(a, b, c, d, p, q, r, s)
    ensures Linear(p, q, r, s, Sum(a), Sum(b), Sum(c), Sum(d))
  {
    if |a| > 0 {
      var n := |a| - 1;
      assert Balanced(a[..n], b[..n], c[..n], d[..n], p, q, r, s) by {
        forall i | 0 <= i < n ensures Linear(p, q, r, s, a[..n][i], b[..n][i], c[..n][i], d[..n][i]) {
          assert a[..n][i] == a[i] && b[..n][i] == b[i] && c[..n][i] == c[i] && d[..n][i] == d[i];
        }
      }
      SumBalanced(a[..n], b[..n], c[..n], d[..n], p, q, r, s);
      BalancedStep(p, q, r, s, Sum(a[..n]), Sum(b[..n]), Sum(c[..n]), Sum(d[..n]), a[n], b[n], c[n], d[n],
        Sum(a), Sum(b), Sum(c), Sum(d));
    }
  }

  lemma FracGap(xj: int, xi: int)
    requires xj != xi
    ensures Frac(xj, xi) * ((xj - xi) as real) == xj as real
  {
  }

  /** The partial product depends only on the nodes before `m` and on the value of the skipped node. */
  lemma {:induction false} BasisPrefix(xs: seq<int>, i: nat, ys: seq<int>, k: nat, m: nat)
    requires i < |xs| && k < |ys| && m <= |xs| && m <= |ys| && xs[i] == ys[k]
    requires forall j :: 0 <= j < m ==> xs[j] == ys[j] && (j == i <==> j == k)
    ensures Basis(xs, i, m) == Basis(ys, k, m)
  {
    if m > 0 {
      BasisPrefix(xs, i, ys, k, m - 1);
    }
  }

  /** The algebra behind Neville's recursion for one weight shared by both sub-problems. */
  lemma NevilleAlgebra(u: int, v: int, y: int, b: real, bu: real, bv: real, w: real,
                        b1: real, b2: real, c: real, fu: real, fv: real)
    requires u != y && v != y && fu == Frac(u, y) && fv == Frac(v, y)
    requires Times(bu, b1, fu) && Times(bv, b2, fv) && b1 == b && b2 == b
    requires Times(c, b, fu) && Times(w, c, fv)
    ensures Linear(u as real, v as real, u as real, v as real, w, bu, bv, w)
  {
    FracGap(u, y);
    FracGap(v, y);
    calc {
      (u as real) * bv - (v as real) * bu;
      (fu * ((u - y) as real)) * (b * fv) - (fv * ((v - y) as real)) * (b * fu);
      (b * fu * fv) * (((u - y) as real) - ((v - y) as real));
      ((u - v) as real) * w;
    }
  }

  /** `w == b * f`, kept whole so that a proof can hand it on unchanged. */
  ghost predicate Times(w: real, b: real, f: real)
  {
    w == b * f
  }

  /** One more factor, for a node other than the skipped one. */
  lemma BasisStep(xs: seq<int>, i: nat, m: nat, a: int, y: int)
    requires i < |xs| && m < |xs| && m != i && xs[m] == a && xs[i] == y
    ensures Times(Basis(xs, i, m + 1), Basis(xs, i, m), Frac(a, y))
  {
  }

  /** A weight is the full product over the nodes. */
  lemma WeightIsBasis(xs: seq<int>, i: nat, n: nat)
    requires i < |xs| == n
    ensures Weight(xs, i) == Basis(xs, i, n)
  {
  }

  /** The last factor of a weight, for a node other than the last one. */
  lemma WeightLast(xs: seq<int>, i: nat, n: nat, a: int, y: int)
    requires |xs| == n + 1 && i < n && xs[n] == a && xs[i] == y
    ensures Times(Weight(xs, i), Basis(xs, i, n), Frac(a, y))
  {
    WeightIsBasis(xs, i, n + 1);
    BasisStep(xs, i, n, a, y);
  }

  /**
   * Neville's recursion for one node of `Y` when the nodes `u` and `v` are appended:
   * `(u - v) * W(Y+[u,v]) == u * W(Y+[v]) - v * W(Y+[u])`, written without subtraction.
   */
  lemma NevilleWeight(ys: seq<int>, u: int, v: int, i: nat)
    requires i < |ys| && ys[i] != u && ys[i] != v && u != v
    ensures Linear(u as real, v as real, u as real, v as real,
                   Weight(ys + [u, v], i), Weight(ys + [u], i), Weight(ys + [v], i), Weight(ys + [u, v], i))
  {
    var n := |ys|;
    var xs, xu, xv := ys + [u, v], ys + [u], ys + [v];
    BasisPrefix(xs, i, xu, i, n);
    BasisPrefix(xs, i, xv, i, n);
    assert |xs| == n + 2 && xs[n] == u && xs[n + 1] == v && xs[i] == ys[i];
    assert |xu| == n + 1 && xu[n] == u && xu[i] == ys[i];
    assert |xv| == n + 1 && xv[n] == v && xv[i] == ys[i];
    BasisStep(xs, i, n, u, ys[i]);
    WeightLast(xs, i, n + 1, v, ys[i]);
    WeightLast(xu, i, n, u, ys[i]);
    WeightLast(xv, i, n, v, ys[i]);
    NevilleAlgebra(u, v, ys[i], Basis(xs, i, n), Weight(xu, i), Weight(xv, i), Weight(xs, i),
      Basis(xu, i, n), Basis(xv, i, n), Basis(xs, i, n + 1), Frac(u, ys[i]), Frac(v, ys[i]));
  }

  /** The nodes of `Y` and the two appended nodes are pairwise different. */
  lemma AppendedApart(ys: seq<int>, u: int, v: int, i: nat)
    requires Distinct(ys + [u, v]) && i < |ys|
    ensures ys[i] != u && ys[i] != v && u != v
  {
    var x, n := ys + [u, v], |ys|;
    assert x[i] == ys[i] && x[n] == u && x[n + 1] == v;
    assert x[i] != x[n] && x[i] != x[n + 1] && x[n] != x[n + 1];
  }

  lemma NevillePointwise(ys: seq<int>, u: int, v: int)
    requires Distinct(ys + [u, v])
    ensures Balanced(Weights(ys + [u, v])[..|ys|], Weights(ys + [u])[..|ys|],
                     Weights(ys + [v])[..|ys|], Weights(ys + [u, v])[..|ys|],
                     u as real, v as real, u as real, v as real)
  {
    forall i | 0 <= i < |ys|
      ensures Linear(u as real, v as real, u as real, v as real, Weights(ys + [u, v])[..|ys|][i],
                     Weights(ys + [u])[..|ys|][i], Weights(ys + [v])[..|ys|][i], Weights(ys + [u, v])[..|ys|][i])
    {
      AppendedApart(ys, u, v, i);
      NevilleWeight(ys, u, v, i);
    }
  }

  /** The first appended node, against its own weight when it is the last node: `(u - v) * W == -v * W'`. */
  lemma NevilleEndFirst(ys: seq<int>, u: int, v: int)
    requires Distinct(ys + [u, v])
    ensures Linear(u as real, v as real, v as real, 0.0,
                   Weight(ys + [u, v], |ys|), Weight(ys + [u], |ys|), Weight(ys + [u, v], |ys|), 0.0)
  {
    var x, xu := ys + [u, v], ys + [u];
    var n := |ys|;
    assert x[n] == u && x[n + 1] == v;
    assert u != v by { assert x[n] != x[n + 1]; }
    FracGap(v, u);
    BasisPrefix(x, n, xu, n, n);
    assert Basis(x, n, n + 1) == Basis(x, n, n);
    assert Weight(x, n) == Basis(x, n, n) * Frac(v, u);
    assert Weight(xu, n) == Basis(xu, n, n);
  }

  /** The second appended node, against its own weight when it is the last node: `(u - v) * W == u * W'`. */
  lemma NevilleEndSecond(ys: seq<int>, u: int, v: int)
    requires Distinct(ys + [u, v])
    ensures Linear(u as real, 0.0, u as real, v as real,
                   Weight(ys + [u, v], |ys| + 1), 0.0, Weight(ys + [v], |ys|), Weight(ys + [u, v], |ys| + 1))
  {
    var x, xv := ys + [u, v], ys + [v];
    var n := |ys|;
    assert x[n] == u && x[n + 1] == v;
    assert u != v by { assert x[n] != x[n + 1]; }
    FracGap(u, v);
    BasisPrefix(x, n + 1, xv, n, n);
    assert Basis(x, n + 1, n + 1) == Basis(x, n + 1, n) * Frac(u, v);
    assert Weight(x, n + 1) == Basis(x, n + 1, n) * Frac(u, v);
    assert Weight(xv, n) == Basis(xv, n, n);
  }

  lemma UnityStep(u: real, v: real, s: real, su: real, sv: real, w0: real, w1: real, wu: real, wv: real, t: real)
    requires u != v
    requires Linear(u, v, u, v, s, su, sv, s)
    requires Linear(u, v, v, 0.0, w0, wu, w0, 0.0) && Linear(u, 0.0, u, v, w1, 0.0, wv, w1)
    requires su + wu == 1.0 && sv + wv == 1.0 && t == s + w0 + w1
    ensures t == 1.0
  {
    calc {
      u * t + v * 1.0;
      (u * s + v * su) + (u * w0 + v * wu) + u * w1;
      (u * sv + v * s) + v * w0 + (u * wv + v * w1);
      u * (sv + wv) + v * t;
      u * 1.0 + v * t;
    }
    assert (u - v) * t == (u - v) * 1.0;
  }

  lemma SubDistinct(xs: seq<int>, ys: seq<int>, f: seq<nat>)
    requires Distinct(xs) && |f| == |ys|
    requires forall j :: 0 <= j < |f| ==> f[j] < |xs| && ys[j] == xs[f[j]]
    requires forall i, j :: 0 <= i < |f| && 0 <= j < |f| && i != j ==> f[i] != f[j]
    ensures Distinct(ys)
  {
  }

  lemma SumLastTwo(s: seq<real>)
    requires |s| >= 2
    ensures Sum(s) == Sum(s[..|s| - 2]) + s[|s| - 2] + s[|s| - 1]
  {
    assert s[..|s| - 1][..|s| - 2] == s[..|s| - 2];
  }

  lemma SumWeightsLastTwo(ys: seq<int>, u: int, v: int)
    ensures Sum(Weights(ys + [u, v]))
         == Sum(Weights(ys + [u, v])[..|ys|]) + Weight(ys + [u, v], |ys|) + Weight(ys + [u, v], |ys| + 1)
  {
    SumLastTwo(Weights(ys + [u, v]));
  }

  lemma SumWeightsLast(ys: seq<int>, u: int)
    ensures Sum(Weights(ys + [u])) == Sum(Weights(ys + [u])[..|ys|]) + Weight(ys + [u], |ys|)
  {
    assert Weights(ys + [u])[..|ys| + 1] == Weights(ys + [u]);
  }

  /** Neville's recursion summed over the nodes of `Y`. */
  lemma NevilleInner(ys: seq<int>, u: int, v: int)
    requires Distinct(ys + [u, v])
    ensures Linear(u as real, v as real, u as real, v as real, Sum(Weights(ys + [u, v])[..|ys|]),
                   Sum(Weights(ys + [u])[..|ys|]), Sum(Weights(ys + [v])[..|ys|]), Sum(Weights(ys + [u, v])[..|ys|]))
  {
    NevillePointwise(ys, u, v);
    SumBalanced(Weights(ys + [u, v])[..|ys|], Weights(ys + [u])[..|ys|],
                Weights(ys + [v])[..|ys|], Weights(ys + [u, v])[..|ys|],
                u as real, v as real, u as real, v as real);
  }

  /** One step of Neville's recursion: unity for `Y+[u]` and `Y+[v]` gives unity for `Y+[u,v]`. */
  lemma NevilleUnity(ys: seq<int>, u: int, v: int)
    requires Distinct(ys + [u, v])
    requires Sum(Weights(ys + [u])) == 1.0 && Sum(Weights(ys + [v])) == 1.0
    ensures Sum(Weights(ys + [u, v])) == 1.0
  {
    var n := |ys|;
    var w, wu, wv := Weights(ys + [u, v])[..n], Weights(ys + [u])[..n], Weights(ys + [v])[..n];
    NevilleInner(ys, u, v);
    NevilleEndFirst(ys, u, v);
    NevilleEndSecond(ys, u, v);
    assert u != v by {
      assert (ys + [u, v])[n] == u && (ys + [u, v])[n + 1] == v;
    }
    SumWeightsLastTwo(ys, u, v);
    SumWeightsLast(ys, u);
    SumWeightsLast(ys, v);
    UnityStep(u as real, v as real, Sum(w), Sum(wu), Sum(wv),
      Weight(ys + [u, v], n), Weight(ys + [u, v], n + 1), Weight(ys + [u], n), Weight(ys + [v], n),
      Sum(Weights(ys + [u, v])));
  }

  /** Partition of unity: the weights of any non-empty set of distinct nodes sum to one. */
  lemma {:induction false} PartitionOfUnity(xs: seq<int>)
    requires Distinct(xs) && |xs| >= 1
    ensures Sum(Weights(xs)) == 1.0
    decreases |xs|
  {
    if |xs| == 1 {
      assert Weight(xs, 0) == Basis(xs, 0, 0);
      assert Weights(xs)[..0] == [];
    } else {
      var n := |xs| - 2;
      var ys, u, v := xs[..n], xs[n], xs[n + 1];
      assert xs == ys + [u, v];
      SubDistinct(xs, ys + [u], seq(n + 1, j => j));
      SubDistinct(xs, ys + [v], seq(n + 1, j => if j == n then n + 1 else j));
      PartitionOfUnity(ys + [u]);
      PartitionOfUnity(ys + [v]);
      NevilleUnity(ys, u, v);
    }
  }

  /* ---------------- reproducing a polynomial at zero ---------------- */

  /** Conversion to the reals respects multiplication. */
  lemma RealOfProduct(a: int, b: int)
    ensures (a * b) as real == (a as real) * (b as real)
  {
  }

  lemma FactorRealAlgebra(e: real, ca: real, gy: real, a: real, d: real, m: real, f: real, wy: real, wx: real)
    requires e == ca + d * gy && wx == wy * f && f * m == a && d + m == 0.0
    ensures Linear(1.0, a, ca, 0.0, e * wx, gy * wy, wx, 0.0)
  {
    calc {
      e * wx + a * (gy * wy);
      ca * wx + (d * gy) * (wy * f) + (f * m) * (gy * wy);
      ca * wx + (gy * wy * f) * (d + m);
    }
  }

  /** The factor theorem on the sampled values: `v_i == v_a + (y_i - a) * g_i`. */
  lemma FactorSample(ys: seq<int>, a: int, c: seq<int>, vs: seq<int>, gs: seq<int>, i: nat)
    requires Samples(c, ys + [a], vs) && Samples(Quot(c, a), ys, gs) && i < |ys|
    ensures vs[i] == vs[|ys|] + (ys[i] - a) * gs[i]
  {
    assert (ys + [a])[i] == ys[i] && (ys + [a])[|ys|] == a;
    FactorTheorem(c, a, ys[i]);
  }

  /** The algebra of one term: `e W_X + a g W_Y == v_a W_X` when `e == v_a + (y - a) g`. */
  lemma FactorAlgebra(y: int, a: int, e: int, ca: int, gy: int, wy: real, wx: real)
    requires y != a && wx == wy * Frac(a, y) && e == ca + (y - a) * gy
    ensures Linear(1.0, a as real, ca as real, 0.0, (e as real) * wx, (gy as real) * wy, wx, 0.0)
  {
    FracGap(a, y);
    RealOfProduct(y - a, gy);
    FactorRealAlgebra(e as real, ca as real, gy as real, a as real, (y - a) as real, (a - y) as real, Frac(a, y), wy, wx);
  }

  /** Removing the last node from the weight of another node drops the factor `a / (a - y)`. */
  lemma WeightDropLast(ys: seq<int>, a: int, i: nat)
    requires i < |ys|
    ensures Weight(ys + [a], i) == Weight(ys, i) * Frac(a, ys[i])
  {
    var xs := ys + [a];
    assert |xs| == |ys| + 1 && xs[|ys|] == a && xs[i] == ys[i];
    WeightLast(xs, i, |ys|, a, ys[i]);
    BasisPrefix(xs, i, ys, i, |ys|);
    WeightIsBasis(ys, i, |ys|);
  }

  lemma TermAt(xs: seq<int>, vs: seq<int>, i: nat)
    requires |vs| == |xs| && i < |xs|
    ensures Terms(xs, vs)[i] == (vs[i] as real) * Weight(xs, i) && Weights(xs)[i] == Weight(xs, i)
  {
  }

  lemma LinearSubst(p: real, q: real, r: real, s: real, a: real, b: real, c: real, d: real, a': real, b': real, c': real)
    requires Linear(p, q, r, s, a, b, c, d) && a == a' && b == b' && c == c'
    ensures Linear(p, q, r, s, a', b', c', d)
  {
  }

  /**
   * One term of the interpolation sum, split at the last node `a`:
   * `v_i W_X[i] + a g_i W_Y[i] == v_a W_X[i]` when `v_i == v_a + (y_i - a) g_i`.
   */
  lemma FactorTerm(ys: seq<int>, a: int, vs: seq<int>, gs: seq<int>, i: nat)
    requires i < |ys| && |vs| == |ys| + 1 && |gs| == |ys| && ys[i] != a
    requires vs[i] == vs[|ys|] + (ys[i] - a) * gs[i]
    ensures Linear(1.0, a as real, vs[|ys|] as real, 0.0, Terms(ys + [a], vs)[i], Terms(ys, gs)[i],
                   Weights(ys + [a])[i], 0.0)
  {
    WeightDropLast(ys, a, i);
    FactorAlgebra(ys[i], a, vs[i], vs[|ys|], gs[i], Weight(ys, i), Weight(ys + [a], i));
    TermAt(ys + [a], vs, i);
    TermAt(ys, gs, i);
    LinearSubst(1.0, a as real, vs[|ys|] as real, 0.0,
      (vs[i] as real) * Weight(ys + [a], i), (gs[i] as real) * Weight(ys, i), Weight(ys + [a], i), 0.0,
      Terms(ys + [a], vs)[i], Terms(ys, gs)[i], Weights(ys + [a])[i]);
  }

  lemma FactorPointwise(ys: seq<int>, a: int, c: seq<int>, vs: seq<int>, gs: seq<int>)
    requires Distinct(ys + [a]) && Samples(c, ys + [a], vs) && Samples(Quot(c, a), ys, gs)
    ensures Balanced(Terms(ys + [a], vs)[..|ys|], Terms(ys, gs), Weights(ys + [a])[..|ys|], Weights(ys + [a])[..|ys|],
                     1.0, a as real, vs[|ys|] as real, 0.0)
  {
    var t, w := Terms(ys + [a], vs), Weights(ys + [a]);
    forall i | 0 <= i < |ys|
      ensures Linear(1.0, a as real, vs[|ys|] as real, 0.0, t[..|ys|][i], Terms(ys, gs)[i], w[..|ys|][i], w[..|ys|][i])
    {
      assert ys[i] != a by {
        assert (ys + [a])[i] == ys[i] && (ys + [a])[|ys|] == a;
      }
      FactorSample(ys, a, c, vs, gs, i);
      FactorTerm(ys, a, vs, gs, i);
      assert t[..|ys|][i] == t[i] && w[..|ys|][i] == w[i];
    }
  }

  /** The sums over the nodes of `Y`. */
  lemma FactorInner(ys: seq<int>, a: int, c: seq<int>, vs: seq<int>, gs: seq<int>)
    requires Distinct(ys + [a]) && Samples(c, ys + [a], vs) && Samples(Quot(c, a), ys, gs)
    ensures Linear(1.0, a as real, vs[|ys|] as real, 0.0, Sum(Terms(ys + [a], vs)[..|ys|]), Sum(Terms(ys, gs)),
                   Sum(Weights(ys + [a])[..|ys|]), Sum(Weights(ys + [a])[..|ys|]))
  {
    FactorPointwise(ys, a, c, vs, gs);
    SumBalanced(Terms(ys + [a], vs)[..|ys|], Terms(ys, gs), Weights(ys + [a])[..|ys|], Weights(ys + [a])[..|ys|],
                1.0, a as real, vs[|ys|] as real, 0.0);
  }

  lemma SumTermsLast(ys: seq<int>, a: int, vs: seq<int>)
    requires |vs| == |ys| + 1
    ensures Sum(Terms(ys + [a], vs)) == Sum(Terms(ys + [a], vs)[..|ys|]) + (vs[|ys|] as real) * Weight(ys + [a], |ys|)
  {
    assert Terms(ys + [a], vs)[..|ys| + 1] == Terms(ys + [a], vs);
  }

  lemma FactorFinal(a: int, ca: int, g0: int, c0: int, t: real, tn: real, ty: real, s: real, sn: real, wn: real)
    requires Linear(1.0, a as real, ca as real, 0.0, tn, ty, sn, sn)
    requires t == tn + (ca as real) * wn && s == sn + wn && s == 1.0
    requires ty == g0 as real && c0 == ca + (0 - a) * g0
    ensures t == c0 as real
  {
    RealOfProduct(a, g0);
  }

  /** The values of a polynomial at some nodes exist. */
  lemma SamplesExist(c: seq<int>, xs: seq<int>) returns (vs: seq<int>)
    ensures Samples(c, xs, vs)
  {
    vs := seq(|xs|, i requires 0 <= i < |xs| => Eval(c, xs[i]));
  }

  /**
   * Lagrange interpolation at zero is exact: for distinct nodes and a polynomial with
   * at most as many coefficients as there are nodes, `Σ_i c(x_i) W_i == c(0)`.
   */
  lemma {:induction false} LagrangeAtZero(xs: seq<int>, vs: seq<int>, c: seq<int>)
    requires Distinct(xs) && |xs| >= 1 && |c| <= |xs| && Samples(c, xs, vs)
    ensures Sum(Terms(xs, vs)) == Eval(c, 0) as real
    decreases |xs|
  {
    var n := |xs| - 1;
    if n == 0 {
      assert Sum(Terms(xs, vs)) == (vs[0] as real) * Weight(xs, 0) by {
        assert Terms(xs, vs)[..0] == [];
      }
      assert Weight(xs, 0) == 1.0 by {
        assert Basis(xs, 0, 1) == Basis(xs, 0, 0);
      }
      assert Eval(c, 0) == Eval(c, xs[0]) by {
        if |c| == 1 {
          assert c[1..] == [];
        }
      }
    } else {
      var ys, a := xs[..n], xs[n];
      assert xs == ys + [a];
      SubDistinct(xs, ys, seq(n, j => j));
      FactorTheorem(c, a, 0);
      var gs := SamplesExist(Quot(c, a), ys);
      LagrangeAtZero(ys, gs, Quot(c, a));
      FactorInner(ys, a, c, vs, gs);
      assert vs[n] == Eval(c, a);
      LagrangeStep(ys, a, vs, gs, vs[n], Eval(Quot(c, a), 0), Eval(c, 0));
    }
  }

  /**
   * The inductive step: with `v_a == c(a)`, `c(0) == c(a) - a * g(0)` for the quotient `g`
   * by `x - a`, the split of the terms at `a`, and exactness for `g` on `Y`, the sum over
   * `Y + [a]` is `c(0)`.
   */
  lemma LagrangeStep(ys: seq<int>, a: int, vs: seq<int>, gs: seq<int>, ca: int, g0: int, c0: int)
    requires Distinct(ys + [a]) && |vs| == |ys| + 1 && |gs| == |ys| && ca == vs[|ys|]
    requires Linear(1.0, a as real, ca as real, 0.0, Sum(Terms(ys + [a], vs)[..|ys|]), Sum(Terms(ys, gs)),
                    Sum(Weights(ys + [a])[..|ys|]), Sum(Weights(ys + [a])[..|ys|]))
    requires Sum(Terms(ys, gs)) == g0 as real && c0 == ca + (0 - a) * g0
    ensures Sum(Terms(ys + [a], vs)) == c0 as real
  {
    var n := |ys|;
    PartitionOfUnity(ys + [a]);
    SumTermsLast(ys, a, vs);
    SumWeightsLast(ys, a);
    FactorFinal(a, ca, g0, c0,
      Sum(Terms(ys + [a], vs)), Sum(Terms(ys + [a], vs)[..n]), Sum(Terms(ys, gs)),
      Sum(Weights(ys + [a])), Sum(Weights(ys + [a])[..n]), Weight(ys + [a], n));
  }
}

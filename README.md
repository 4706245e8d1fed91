# crypto_experiments: exact modular arithmetic, Shamir sharing and scalar encoding

A Dafny model of the arithmetic core of `crypto_experiments`, with proofs of what its code
and unit tests promise:

- **The field-arithmetic kernel** (`modulo_arithmetic`). `algo_extended_euclidean` is the
  two-row table of remainders and Bezout coefficients with Euclidean division, followed by
  the sign normalisation of the reduced pair. `modinv` and `moddiv` are built on it.
  `modpow` is square-and-multiply, proved equal on every input to the repeated-multiplication
  reference `modpow_dumb` of its tests.
- **Shamir secret sharing** (`shamir_secret_sharing/src/lib.rs`):
  - `eval_polynomial` is Horner's rule reduced modulo `p`;
  - `share_secret` evaluates a polynomial whose constant coefficient is the secret at the
    ids `1..n`;
  - `lagrange_interpolate` rejects repeated ids and then runs two nested loops that
    accumulate `Σ y_i Π_{j≠i} x_j / (x_j - x_i)` modulo `p`.

  The main theorem: modulo a prime `p > n`, interpolating any view of at least `k` of the
  shares gives back the secret reduced modulo `p`, or rejects a view that repeats a share.
  This holds whatever coefficients were drawn.
- **The older copy** (`shamir_secret_sharing/src/main.rs` and `modulo_arithmetic.rs`):
  - a six-variable `extended_euclid`;
  - a `divmod` guarded by `p > 0` and the truncating `den % p != 0`;
  - the same sharing code on top of them.

  `divmod` agrees with `moddiv` modulo a prime, the same reconstruction theorem holds, and
  every reconstruction in `main` returns the secret itself.
- **Scalar interop** (`feldman_vss`). A secp256k1 scalar is its 32 big-endian bytes.
  - `to_bigint` decodes them.
  - `to_scalar` reduces modulo the group order and encodes. `interop.rs` left-pads to 32
    bytes or keeps the low 32. `interop_util.rs` copies without padding, which panics unless
    the encoding has exactly 32 bytes.

Module layout:

| file | module | what it holds (Dafny name is Rust name) |
|---|---|---|
| wrappers.dfy | Wrappers | `Option`, `Result` |
| modular.dfy | Modular | congruence, powers, primes, uniqueness of the Euclidean remainder |
| extended_euclidean.dfy | ExtendedEuclidean | `ExtendedEuclideanResult` is `ExtendedEuclideanResult`; `ExtEuclid` (function) and `AlgoExtendedEuclidean` (method) are `algo_extended_euclidean`, with `EuclidLoop` its loop; `ModInv` is `modinv`; `ModDiv` is `moddiv`; their unit tests |
| modpow.dfy | ModPow | `ModPow` (method) is `modpow`; `ModPowDumb` is `modpow_dumb` |
| polynomial.dfy | Polynomial | `Horner` (function) and `EvalPolynomial` (method) are `eval_polynomial`; `PowerSum` is the textbook power sum; the factor theorem |
| lagrange.dfy | Lagrange | the rational Lagrange identity at zero: partition of unity, exactness |
| interpolation.dfy | Interpolation | `LambdaFold` and `SumFold` are the inner and outer loops of `lagrange_interpolate`; `CheckUniqueness` is its uniqueness check; `Interpolate` (function) and `Reconstruct` (method) are `lagrange_interpolate` with the division as a parameter; correctness modulo a prime |
| shamir.dfy | Shamir | `ShamirShare` is `ShamirShare`; `ShareSecret` is `share_secret` (also the one of main.rs); `Shares` is its share loop; `KernelDiv` is `moddiv` as the division; `LagrangeInterpolate` is `lagrange_interpolate` of lib.rs; `ShamirTest` is its test |
| shamir_legacy.dfy | ShamirLegacy | `Share` is `Share`; `ExtendedEuclid` is `extended_euclid`; `TruncRem` is BigInt's truncating `%`; `DivMod` is `divmod`, `LegacyDiv` the same as a division; `LagrangeInterpolate` is `lagrange_interpolate` of main.rs; `ReconstructionChecks` is `main` |
| big_endian.dfy | BigEndian | `Value` is `BigInt::from_bytes_be(Sign::Plus, _)`; `ToBytes` is the magnitude of `to_bytes_be` |
| interop.dfy | Interop | `ToBigInt` is `to_bigint`; `ToScalar` is `to_scalar` of interop.rs, with `Fit32` its truncate-or-pad step |
| interop_util.dfy | InteropUtil | `ToScalar` is `to_scalar` of interop_util.rs (`to_bigint` there is `Interop.ToBigInt`) |

Every panic of the Rust code is an error value in the model:
- a failed `assert!`;
- `rem_euclid` by zero;
- an empty `gen_bigint_range`;
- a length mismatch in `copy_from_slice`.

Random draws are inputs. `share_secret` receives the `k - 1` coefficients that
`gen_bigint_range(1, p)` returned. `lagrange_interpolate` is modelled once, generic in its
division, and instantiated with `moddiv` (lib.rs) and with `divmod` (main.rs).

The correctness proof of the reconstruction goes through the rationals. The Lagrange
weights at zero sum to one, by Neville's recursion. They reproduce `c(0)` for every
polynomial `c` with no more coefficients than nodes, by the factor theorem. Clearing the
denominators gives an integer identity, and the running residues of the loops are shown
congruent to it, step by step, modulo the prime.

The theorem needs `p > n`. The uniqueness check compares the ids as integers, so two ids
that are equal modulo `p` pass it: for `p = 2` and ids `1` and `3`, the divisor `x_j - x_i`
is a multiple of `p`. `moddiv` then multiplies by a Bezout coefficient that is no inverse,
and the sum need not be the secret; `divmod` panics.

Where the code and the repository's own description of it differ, the model follows the
code:
- The doc comment of `ExtendedEuclideanResult` says `a == gcd * reduced_a`. The code
  normalises the sign of the reduced pair and not of the gcd, so what holds is
  `a == |gcd| * reduced_a`. The gcd is negative when, for example, `b` divides `a` and
  `b < 0` (`ExtendedEuclidean.GcdSign`).
- The sign normalisation applies to `reduced_a` and `reduced_b` (the final `curr` row), not
  to the Bezout coefficients.
- `share_secret` with `k == 0` still uses the one coefficient `[s]`, so the reconstruction
  theorem asks for at least `max(k, 1)` shares.
- `to_bytes_be` of zero is the single byte `0`, so the `interop_util.rs` conversion panics
  for zero as well as for every reduced value below `256^31`.

## Model

| member | source | states |
|---|---|---|
| ExtendedEuclidean.StepKeepsInvariant | modulo_arithmetic/src/extended_euclidean.rs:42-48 | one loop step keeps `r == a*x + b*y` on both rows and the unimodular coefficient matrix, and its Euclidean remainder lies in `[0, |curr.r|)`, so the loop terminates |
| ExtendedEuclidean.EuclidLoopInvariant | modulo_arithmetic/src/extended_euclidean.rs:35-48 | the whole loop keeps the Bezout relation on both rows and stops with `curr.r == 0` |
| ExtendedEuclidean.ExtEuclidSpec | modulo_arithmetic/src/extended_euclidean.rs:13-28 | `gcd == a*bezout_x + b*bezout_y`; `a == |gcd|*reduced_a` and `b == |gcd|*reduced_b`; the reduced pair carries the signs of `a` and `b` and keeps their ratio; `gcd == 0` iff both inputs are 0; `gcd > 0` whenever `b > 0` |
| ExtendedEuclidean.GcdSign | modulo_arithmetic/src/extended_euclidean.rs:55-56 | the gcd is `a` when `b == 0`, `b` when `b` divides `a`, and positive otherwise |
| ExtendedEuclidean.AlgoExtendedEuclidean | modulo_arithmetic/src/extended_euclidean.rs:30-62 | the loop and the sign flips return exactly `ExtEuclid(a, b)`, with the Bezout identity and the reduced pair times `|gcd|` giving back the inputs |
| ExtendedEuclidean.PrimeGcdIsOne | modulo_arithmetic/src/extended_euclidean.rs:79-80 | for a prime modulus and an `a` it does not divide, the gcd computed is exactly 1 |
| ExtendedEuclidean.PrimeProductNonZero | modulo_arithmetic/src/extended_euclidean.rs:13-17 | Euclid's lemma from the Bezout identity: a prime dividing neither factor does not divide the product |
| ExtendedEuclidean.ModInvSound | modulo_arithmetic/src/extended_euclidean.rs:77-82 | a result of `modinv` lies in `[0, |p|)` and `a * result ≡ 1 (mod p)` |
| ExtendedEuclidean.ModInvComplete | modulo_arithmetic/src/extended_euclidean.rs:77-82 | whenever an inverse of `a` modulo `p` exists (`p ∉ {0, -1}`), `modinv` does not panic |
| ExtendedEuclidean.ModInvPrime | modulo_arithmetic/src/extended_euclidean.rs:77-82 | for a prime `p`, `modinv` succeeds exactly when `p` does not divide `a` |
| ExtendedEuclidean.ModDivExact | modulo_arithmetic/src/extended_euclidean.rs:68-70 | when `reduced_b == 1`, `moddiv` returns the exact quotient: `b > 0` and `b * result == a` |
| ExtendedEuclidean.ModDivSound | modulo_arithmetic/src/extended_euclidean.rs:71-74 | otherwise, when `reduced_b` is invertible modulo `p`, the result lies in `[0, |p|)` and is the quotient of the reduced pair, `reduced_b * result ≡ reduced_a (mod p)`; hence also `b * result ≡ a (mod p)`, which alone says nothing when `p` divides `gcd(a, b)` |
| ExtendedEuclidean.ModDivPrime | modulo_arithmetic/src/extended_euclidean.rs:64-75 | for a prime `p` not dividing `b`, `moddiv` returns a quotient modulo `p` |
| ExtendedEuclidean.ReduceIdempotent | modulo_arithmetic/src/extended_euclidean.rs:64-67 | reducing an already reduced pair changes nothing |
| ExtendedEuclidean.ModDivReduced | modulo_arithmetic/src/extended_euclidean.rs:102-112 | dividing out the gcd first gives the same `moddiv` result, for every input |
| ExtendedEuclidean.ExtEuclidTestVector | modulo_arithmetic/src/extended_euclidean.rs:87-99 | `algo_extended_euclidean(288, 396)` is `(36, -4, 3, 8, 11)` |
| ExtendedEuclidean.ModDivTestVector | modulo_arithmetic/src/extended_euclidean.rs:102-107 | `moddiv(28, 8, 17) == 12` |
| ExtendedEuclidean.ModDivReducedTestVector | modulo_arithmetic/src/extended_euclidean.rs:108-111 | `moddiv(7, 2, 17) == 12` |
| ExtendedEuclidean.ModInvTestVector | modulo_arithmetic/src/extended_euclidean.rs:114-120 | `modinv(-2, 17) == 8` |
| ModPow.ModPow | modulo_arithmetic/src/modpow.rs:4-26 | square-and-multiply keeps `y * base^exp` congruent to the starting power and returns exactly what `modpow_dumb` returns, on every input |
| ModPow.RepeatMulPow | modulo_arithmetic/src/modpow.rs:39-44 | the reference loop's running product after `e > 0` steps is `b^e mod p` |
| ModPow.ModPowNonNegative | modulo_arithmetic/src/modpow.rs:32-46 | for `exp >= 0` the result is 1 for `exp == 0` and `base^exp mod p` otherwise |
| ModPow.ModPowNegative | modulo_arithmetic/src/modpow.rs:35-38 | for `exp < 0` the result times `base^(-exp)` is congruent to 1 |
| ModPow.ModPowRange | modulo_arithmetic/src/modpow.rs:11-25 | the result is 1 for `exp == 0` and otherwise lies in `[0, |p|)` |
| ModPow.ModPowReducedBase | modulo_arithmetic/src/modpow.rs:5 | the base is reduced first: only `base mod p` matters, as the tests with 114 and -114 rely on |
| ModPow.ModPowDefined | modulo_arithmetic/src/modpow.rs:5-10 | the computation panics exactly when `p == 0`, or the exponent is negative and `gcd(base mod p, p) != 1` |
| ModPow.ModPowPrimeNegative | modulo_arithmetic/src/modpow.rs:7-10 | modulo a prime a negative exponent is accepted exactly when `p` does not divide the base |
| Polynomial.HornerSpec | shamir_secret_sharing/src/lib.rs:69-77 | the reduced Horner value is `Σ c[i]·x^i mod p`, lies in `[0, |p|)`, and is 0 for no coefficients |
| Polynomial.EvalPolynomial | shamir_secret_sharing/src/modulo_arithmetic.rs:10-18 | the reverse loop computes the reduced Horner value; it panics for `p == 0` unless there is no coefficient |
| Polynomial.EvalIsPowerSum | shamir_secret_sharing/src/lib.rs:69-70 | Horner's rule over the integers equals the sum in ascending powers |
| Polynomial.HornerIsReducedEval | shamir_secret_sharing/src/lib.rs:73-75 | reducing after every step gives the reduced value of the whole polynomial |
| Polynomial.FactorTheorem | shamir_secret_sharing/src/lib.rs:36-41 | `c(x) == c(a) + (x - a) q(x)` with a quotient of one coefficient fewer |
| Lagrange.PartitionOfUnity | shamir_secret_sharing/src/lib.rs:36-41 | the weights `Π_{j≠i} x_j / (x_j - x_i)` of distinct nodes sum to one |
| Lagrange.LagrangeAtZero | shamir_secret_sharing/src/lib.rs:36-41 | over the rationals, `Σ_i c(x_i) W_i == c(0)` for distinct nodes and at most as many coefficients as nodes |
| Interpolation.CheckUniqueness | shamir_secret_sharing/src/lib.rs:43-49 | the set-size comparison answers true exactly when no id repeats |
| Interpolation.LambdaFoldSound | shamir_secret_sharing/src/lib.rs:54-62 | with a sound division and nodes distinct modulo `p`, the inner loop never panics and `λ_i · D_i ≡ N_i (mod p)` |
| Interpolation.SumFoldSound | shamir_secret_sharing/src/lib.rs:50-65 | with a sound division and ids distinct modulo `p`, the outer loop never panics, every partial sum lies in `[0, |p|)`, and it is congruent to the integer numerator over the common denominator |
| Interpolation.LambdaFailureFails | shamir_secret_sharing/src/lib.rs:60-61 | a panic of one division panics the whole interpolation |
| Interpolation.InterpolationCorrect | shamir_secret_sharing/src/lib.rs:50-66 | for a prime `p`, a sound division and values congruent to a polynomial's, the loops return `c(0) mod p` |
| Interpolation.SumFoldRange | shamir_secret_sharing/src/lib.rs:63-64 | every partial sum that exists after at least one share lies in `[0, |p|)`, for any division, modulus and ids |
| Interpolation.InterpolateRange | shamir_secret_sharing/src/lib.rs:50-66 | a result of `lagrange_interpolate` with at least one share lies in `[0, |p|)`, for any division, modulus and ids |
| Interpolation.Reconstruct | shamir_secret_sharing/src/lib.rs:42-67 | the uniqueness check and the two nested loops return exactly the specified result: `DuplicateId` for a repeated id, a panic, or the sum; with at least one share the sum lies in `[0, |p|)` unconditionally |
| Interpolation.InterpolateEmpty | shamir_secret_sharing/src/lib.rs:50-66 | no shares give 0 |
| Interpolation.InterpolateZeroModulus | shamir_secret_sharing/src/lib.rs:61-64 | modulus 0 panics as soon as there is a share |
| Shamir.ShareSecret | shamir_secret_sharing/src/lib.rs:10-34 | panics for `k > n` or `p <= 0` (and for `p == 1` when a coefficient must be drawn); otherwise the shares of the polynomial `[s] + draws` at ids `1..n`; `share_secret` of main.rs (lines 33-57) is the same function |
| Shamir.SharesAreEvaluations | shamir_secret_sharing/src/lib.rs:24-33 | exactly `n` shares, ids `1..n` in order and pairwise different, each value the power sum at its id reduced into `[0, p)` |
| Shamir.LagrangeInterpolate | shamir_secret_sharing/src/lib.rs:42-67 | the interpolation dividing with `moddiv`; a result from at least one share lies in `[0, |p|)` |
| Shamir.KernelDivSound | shamir_secret_sharing/src/lib.rs:60 | modulo a prime, `moddiv` is a sound division for the loop |
| Shamir.SharesReconstruct | shamir_secret_sharing/src/lib.rs:36-41 | for any sound division, modulo a prime `p > n`, any view of at least `k` shares gives `s mod p`, or `DuplicateId` when it repeats a share; `p > n` keeps the ids `1..n` distinct modulo `p`, which the integer uniqueness check does not ensure |
| Shamir.ShareThenInterpolate | shamir_secret_sharing/src/lib.rs:42-67 | the same for `lagrange_interpolate` with `moddiv` |
| Shamir.ShamirTest | shamir_secret_sharing/src/lib.rs:88-106 | quorum 3 of 5: the first three, four and five shares all give back `s mod p`, for every draw |
| ShamirLegacy.ExtendedEuclid | shamir_secret_sharing/src/modulo_arithmetic.rs:27-41 | the six-variable loop keeps both Bezout rows and returns the kernel's Bezout pair, whose combination is the gcd dividing both inputs |
| ShamirLegacy.TruncRemSpec | shamir_secret_sharing/src/modulo_arithmetic.rs:21-22 | the truncating `%` is below `|p|` in magnitude, has the sign of `den`, differs from it by a multiple of `p`, and is zero exactly when `p` divides `den` |
| ShamirLegacy.DivModDefined | shamir_secret_sharing/src/modulo_arithmetic.rs:20-25 | `divmod` panics unless `p > 0` and `p` does not divide `den`; otherwise its result lies in `[0, p)` |
| ShamirLegacy.DivModPrime | shamir_secret_sharing/src/modulo_arithmetic.rs:20-25 | for a prime `p`, `den * divmod(num, den, p) ≡ num (mod p)` |
| ShamirLegacy.LegacyDivSound | shamir_secret_sharing/src/main.rs:83 | modulo a prime, `divmod` is a sound division for the loop |
| ShamirLegacy.DivModAgreesWithModDiv | shamir_secret_sharing/src/modulo_arithmetic.rs:20-25 | modulo a prime, `divmod` is `moddiv` reduced into `[0, p)` |
| ShamirLegacy.LagrangeInterpolate | shamir_secret_sharing/src/main.rs:59-90 | the interpolation of main.rs, dividing with `divmod`; a result from at least one share lies in `[0, |p|)` |
| ShamirLegacy.ShareThenInterpolate | shamir_secret_sharing/src/main.rs:59-90 | modulo a prime `p > n`, any view of at least `k` shares gives `s mod p`, or `DuplicateId` when it repeats a share; `p > n` keeps the ids distinct modulo `p`, which the integer uniqueness check does not ensure |
| ShamirLegacy.MainModulus | shamir_secret_sharing/src/main.rs:2 | `2^127 - 1` is `0x7FFF…FFFF` and exceeds the secret |
| ShamirLegacy.MainViews | shamir_secret_sharing/src/main.rs:6-21 | the first three, four and five of five shares give the secret itself, unreduced |
| ShamirLegacy.ReconstructionChecks | shamir_secret_sharing/src/main.rs:1-22 | `main`'s three reconstructions all return the secret, for every draw |
| BigEndian.ToBytesSpec | feldman_vss/src/util/interop.rs:28 | the minimal encoding decodes back to its value, has no leading zero byte except for zero itself, and has as many bytes as the value has base-256 digits |
| BigEndian.ToBytesLength | feldman_vss/src/interop_util.rs:17-19 | for `k >= 2`, the encoding has exactly `k` bytes iff `256^(k-1) <= v < 256^k` |
| BigEndian.ValueInjective | feldman_vss/src/util/interop.rs:7-9 | two byte strings of one length with one value are equal |
| BigEndian.ValueConcat | feldman_vss/src/util/interop.rs:33-36 | concatenation shifts the front part by the length of the back part |
| Interop.OrderBounds | feldman_vss/src/util/interop.rs:26 | the secp256k1 order lies strictly between `256^31` and `256^32` |
| Interop.ToBigInt | feldman_vss/src/util/interop.rs:6-10 | the decoded value is below `256^32` |
| Interop.LowBytesValue | feldman_vss/src/util/interop.rs:30-32 | keeping the low bytes keeps the value modulo `256^(their count)` |
| Interop.PaddedValue | feldman_vss/src/util/interop.rs:33-36 | left-padding with zeros keeps the value |
| Interop.Fit32Value | feldman_vss/src/util/interop.rs:28-37 | the 32-byte buffer holds the encoded value modulo `256^32` |
| Interop.NoTruncation | feldman_vss/src/util/interop.rs:30-32 | after the reduction the encoding never exceeds 32 bytes, so the truncating branch is dead |
| Interop.ToScalarValue | feldman_vss/src/util/interop.rs:26-38 | `to_bigint(to_scalar(x)) == x mod n`, negative `x` included |
| Interop.ToScalarModOrder | feldman_vss/src/util/interop.rs:26-27 | `to_scalar(x) == to_scalar(y)` iff `x ≡ y (mod n)` |
| Interop.ScalarRoundTrip | feldman_vss/src/util/interop.rs:60-66 | a canonical scalar survives `to_bigint` then `to_scalar` |
| InteropUtil.ToScalarDefined | feldman_vss/src/interop_util.rs:13-22 | `to_scalar` succeeds iff `256^31 <= x mod n`; it panics on smaller reduced values, zero included |
| InteropUtil.ToScalarAgrees | feldman_vss/src/interop_util.rs:4-22 | when it succeeds, it equals the padding conversion, and `to_bigint` gives back `x mod n` |

## Left out

- Randomness: `thread_rng` and `gen_bigint_range` are replaced by the input `draws`, and `Scalar::random` and `OsRng` by an arbitrary scalar.
- Shamir.ShareSecret: the draws may be any integers. The `[1, p)` range of `gen_bigint_range` is not required, and every theorem holds without it.
- Interpolation.CheckUniqueness: ids are unbounded integers (`ShamirShare.id` is an unbounded natural), and the `usize -> to_be_bytes -> from_be_bytes` round trip is the identity. The 64-bit width of `usize` is not modelled.
- ShamirLegacy.ReconstructionChecks: proved for every prime `p` above the secret. That `2^127 - 1` is prime is a hypothesis, not proved, because the proof would need a primality certificate far beyond the verifier.
- ShamirLegacy.MainViews: the same hypothesis.
- `println!` in `main` is left out, because it is output only.
- `k256` internals: `to_bytes` and `from_bytes_unchecked` are the identity on 32 bytes. The field multiplication, addition and `invert` that `test_interop` applies to scalars after the first round trip are not modelled.
- The `to_bigint` of `interop_util.rs` is the same decoding as `Interop.ToBigInt`, so it is not declared a second time.
- The DKG protocol types, `sesman.rs` (transport and concurrency), `hash.rs` (foreign hash and encoding calls), `keystore.rs` (persistence and elliptic-curve points) and the async integration tests are not part of this model.
- The `num0`/`num1` and `const_0`/`const_1` helpers are constants here.

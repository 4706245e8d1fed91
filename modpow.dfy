/**
 * Modular exponentiation (modulo_arithmetic/src/modpow.rs).
 *
 * `modpow` is square-and-multiply over the binary digits of the exponent; its unit
 * tests compare it with `modpow_dumb`, which multiplies the reduced base in `exp`
 * times. Both reduce the base first and answer a negative exponent with the
 * inverse of the base. Where the Rust code panics (`rem_euclid` by zero, the
 * `gcd == 1` assertion inside `modinv`) the model answers `None`.
 */
module ModPow {
  import opened Wrappers
  import opened Modular
  import opened ExtendedEuclidean

  /** `b` multiplied into an accumulator that starts at 1, reducing after each of `e` steps. */
  function RepeatMul(b: int, e: nat, p: int): (r: int)
    requires p != 0
  {
    if e == 0 then 1 else (RepeatMul(b, e - 1, p) * b) % p
  }

  /** The reference `modpow_dumb`: reduce, invert for a negative exponent, multiply `|exp|` times. */
  function ModPowDumb(base: int, exp: int, p: int): (r: Option<int>)
  {
    if p == 0 then None
    else if exp < 0 then
      match ModInv(base % p, p)
      case None => None
      case Some(inv) => Some(RepeatMul(inv, -exp, p))
    else Some(RepeatMul(base % p, exp, p))
  }

  /** Squaring the reduced base halves the exponent modulo `p`. */
  lemma SquaredBase(b: int, h: nat, p: int)
    requires p != 0
    ensures Cong(Pow((b * b) % p, h), Pow(b, 2 * h), p)
  {
    CongMod(b * b, p);
    CongPow((b * b) % p, b * b, h, p);
    PowSquare(b, h);
  }

  /** One round of the loop keeps `y * base^exp` fixed modulo `p`. */
  lemma SquareStep(y: int, b: int, e: nat, p: int)
    requires p != 0 && e > 0
    ensures var y' := if e % 2 == 1 then (y * b) % p else y;
            Cong(y' * Pow((b * b) % p, e / 2), y * Pow(b, e), p)
  {
    var h := e / 2;
    var sq := Pow((b * b) % p, h);
    var pw := Pow(b, 2 * h);
    SquaredBase(b, h, p);
    if e % 2 == 1 {
      assert e == 2 * h + 1;
      assert Pow(b, e) == b * pw;
      assert y * Pow(b, e) == (y * b) * pw;
      CongMod(y * b, p);
      CongMul((y * b) % p, y * b, sq, pw, p);
    } else {
      assert e == 2 * h;
      CongMul(y, y, sq, pw, p);
    }
  }

  /** `modpow`: square-and-multiply, proved equal to the reference on every input. */
  method ModPow(base: int, exp: int, p: int) returns (r: Option<int>)
    ensures r == ModPowDumb(base, exp, p)
  {
    if p == 0 {
      return None;
    }
    var b := base % p;
    var e := exp;
    if e < 0 {
      var inv := ModInv(b, p);
      if inv.None? {
        return None;
      }
      b := inv.value;
      e := -e;
    }
    ghost var b0, e0 := b, e;
    var y := 1;
    while e > 0
      invariant 0 <= e
      invariant Cong(y * Pow(b, e), Pow(b0, e0), p)
      invariant e0 > 0 ==> e > 0 || 0 <= y < Abs(p)
      invariant e0 == 0 ==> y == 1
      decreases e
    {
      SquareStep(y, b, e, p);
      if e % 2 == 1 {
        y := (y * b) % p;
      }
      e := e / 2;
      b := (b * b) % p;
    }
    if e0 > 0 {
      RepeatMulPow(b0, e0, p);
      assert y * Pow(b, e) == y;
      ModUnique(y, p, 0, y);
    }
    r := Some(y);
  }

  /** For a positive count, the reduced running product is the reduced power. */
  lemma {:induction false} RepeatMulPow(b: int, e: nat, p: int)
    requires p != 0 && e > 0
    ensures RepeatMul(b, e, p) == Pow(b, e) % p
  {
    if e > 1 {
      RepeatMulPow(b, e - 1, p);
      CongMod(Pow(b, e - 1), p);
      CongMul(Pow(b, e - 1) % p, Pow(b, e - 1), b, b, p);
      CongMod(RepeatMul(b, e - 1, p) * b, p);
    }
  }

  /** For a non-negative exponent the answer is the textbook power, or 1 for exponent 0. */
  lemma ModPowNonNegative(base: int, exp: int, p: int)
    requires p != 0 && exp >= 0
    ensures ModPowDumb(base, exp, p) == Some(if exp == 0 then 1 else Pow(base, exp) % p)
  {
    if exp > 0 {
      RepeatMulPow(base % p, exp, p);
      CongMod(base, p);
      CongPow(base % p, base, exp, p);
    }
  }

  /** A negative exponent inverts: `r * base^(-exp) ≡ 1 (mod p)`. */
  lemma ModPowNegative(base: int, exp: int, p: int)
    requires exp < 0 && ModPowDumb(base, exp, p).Some?
    ensures Cong(ModPowDumb(base, exp, p).value * Pow(base, -exp), 1, p)
  {
    var inv := ModInv(base % p, p).value;
    var r := ModPowDumb(base, exp, p).value;
    ModInvSound(base % p, p);
    RepeatMulPow(inv, -exp, p);
    CongMod(Pow(inv, -exp), p);
    CongMod(base, p);
    CongPow(base % p, base, -exp, p);
    CongMul(r, Pow(inv, -exp), Pow(base, -exp), Pow(base % p, -exp), p);
    PowMul(inv, base % p, -exp);
    assert inv * (base % p) == (base % p) * inv;
    CongPow(inv * (base % p), 1, -exp, p);
    OnePow(-exp);
  }

  lemma {:induction false} OnePow(e: nat)
    ensures Pow(1, e) == 1
  {
    if e > 0 {
      OnePow(e - 1);
    }
  }

  /** The result is 1 for exponent 0 and otherwise a residue in `[0, |p|)`. */
  lemma ModPowRange(base: int, exp: int, p: int)
    requires ModPowDumb(base, exp, p).Some?
    ensures exp == 0 ==> ModPowDumb(base, exp, p).value == 1
    ensures exp != 0 ==> 0 <= ModPowDumb(base, exp, p).value < Abs(p)
  {
    if exp != 0 {
      var b := if exp < 0 then ModInv(base % p, p).value else base % p;
      var n: nat := if exp < 0 then -exp else exp;
      RepeatMulPow(b, n, p);
    }
  }

  /** The base is reduced first, so only its residue matters. */
  lemma ModPowReducedBase(base: int, exp: int, p: int)
    requires p != 0
    ensures ModPowDumb(base, exp, p) == ModPowDumb(base % p, exp, p)
  {
    ModIdempotent(base, p);
  }

  /**
   * The computation fails exactly when `p == 0`, or when the exponent is negative
   * and the reduced base has no inverse modulo `p`.
   */
  lemma ModPowDefined(base: int, exp: int, p: int)
    ensures ModPowDumb(base, exp, p).Some? <==>
            p != 0 && (exp >= 0 || ExtEuclid(base % p, p).gcd == 1)
  {
  }

  /** Modulo a prime, a negative exponent is accepted exactly for a base not divisible by `p`. */
  lemma ModPowPrimeNegative(base: int, exp: int, p: int)
    requires IsPrime(p) && exp < 0
    ensures ModPowDumb(base, exp, p).Some? <==> base % p != 0
  {
    ModInvPrime(base % p, p);
    ModIdempotent(base, p);
  }
}

/**
 * Integer powers and the facts about reduction modulo a positive modulus
 * that square-and-multiply exponentiation relies on.
 *
 * `%` below is Dafny's Euclidean remainder. For a positive modulus it agrees
 * with Python's floored `%`: the remainder lies in [0, p) also for a negative
 * left operand.
 */
module Power {

  /** b raised to the e-th power, computed naively: the reference definition. */
  function Pow(b: int, e: nat): (r: int)
  {
    if e == 0 then 1 else b * Pow(b, e - 1)
  }

  /** Adding exponents multiplies powers. */
  lemma {:induction false} PowAdd(b: int, m: nat, n: nat)
    ensures Pow(b, m + n) == Pow(b, m) * Pow(b, n)
  {
    if m > 0 {
      PowAdd(b, m - 1, n);
      calc {
        Pow(b, m + n);
        b * Pow(b, (m - 1) + n);
        b * (Pow(b, m - 1) * Pow(b, n));
        (b * Pow(b, m - 1)) * Pow(b, n);
      }
    }
  }

  /** A power of a power multiplies exponents: (b^m)^n == b^(m*n). */
  lemma {:induction false} PowMul(b: int, m: nat, n: nat)
    ensures Pow(Pow(b, m), n) == Pow(b, m * n)
  {
    if n > 0 {
      PowMul(b, m, n - 1);
      assert m * n == m + m * (n - 1);
      PowAdd(b, m, m * (n - 1));
    }
  }

  /** Squaring the base halves the exponent: (b*b)^k == b^(2k). */
  lemma PowSquare(b: int, k: nat)
    ensures Pow(b * b, k) == Pow(b, 2 * k)
  {
    assert Pow(b, 1) == b;
    assert Pow(b, 2) == b * b;
    PowMul(b, 2, k);
  }

  /** x and x + k*p leave the same remainder. */
  lemma ModAddMultiple(x: int, k: int, p: int)
    requires p > 0
    ensures (x + k * p) % p == x % p
  {
    var q, r := x / p, x % p;
    assert x == q * p + r;
    assert x + k * p == (q + k) * p + r;
    ModUnique(x + k * p, q + k, r, p);
  }

  /** The quotient and remainder of Euclidean division are unique. */
  lemma ModUnique(x: int, q: int, r: int, p: int)
    requires p > 0 && 0 <= r < p && x == q * p + r
    ensures x % p == r
  {
    var q', r' := x / p, x % p;
    var d := q - q';
    assert d * p == r' - r;
  }

  /** Reducing the left factor first does not change the product's remainder. */
  lemma MulModLeft(a: int, b: int, p: int)
    requires p > 0
    ensures (a * b) % p == ((a % p) * b) % p
  {
    var q := a / p;
    assert a == q * p + a % p;
    assert a * b == (a % p) * b + (q * b) * p;
    ModAddMultiple((a % p) * b, q * b, p);
  }

  /** Reducing the right factor first does not change the product's remainder. */
  lemma MulModRight(a: int, b: int, p: int)
    requires p > 0
    ensures (a * b) % p == (a * (b % p)) % p
  {
    MulModLeft(b, a, p);
    assert a * b == b * a && a * (b % p) == (b % p) * a;
  }

  /** Reducing the base first does not change the power's remainder. */
  lemma {:induction false} PowMod(b: int, e: nat, p: int)
    requires p > 0
    ensures Pow(b % p, e) % p == Pow(b, e) % p
  {
    if e > 0 {
      PowMod(b, e - 1, p);
      calc {
        Pow(b % p, e) % p;
        ((b % p) * Pow(b % p, e - 1)) % p;
        { MulModRight(b % p, Pow(b % p, e - 1), p); }
        ((b % p) * (Pow(b % p, e - 1) % p)) % p;
        ((b % p) * (Pow(b, e - 1) % p)) % p;
        { MulModRight(b % p, Pow(b, e - 1), p); }
        ((b % p) * Pow(b, e - 1)) % p;
        { MulModLeft(b, Pow(b, e - 1), p); }
        (b * Pow(b, e - 1)) % p;
        Pow(b, e) % p;
      }
    }
  }
}

/**
 * Right-to-left square-and-multiply modular exponentiation, `mod_exp(b, e, p)`.
 *
 * The accumulator starts at 1 and is reduced only when a set bit of the
 * exponent multiplies into it. Hence for e == 0 the result is 1 even when
 * p == 1, where 1 % p would be 0; for every other input the result is
 * b^e mod p.
 */
module ModularExponentiation {
  import opened Power

  /**
   * What `mod_exp(b, e, p)` returns, for a positive modulus and a
   * non-negative exponent: 1 when the exponent is zero (the accumulator is
   * never reduced), b^e mod p otherwise.
   */
  function ModExpValue(b: int, e: nat, p: int): (r: int)
    requires p > 0
  {
    if e == 0 then 1 else Pow(b, e) % p
  }

  /**
   * One pass of the loop body keeps x * power^e mod p unchanged: the set low
   * bit multiplies power into x, the exponent is halved and power squared,
   * each product reduced mod p.
   */
  lemma LoopStep(x: int, power: int, e: nat, p: int)
    requires p > 0 && e > 0
    ensures var x' := if e % 2 == 1 then (x * power) % p else x;
            (x' * Pow((power * power) % p, e / 2)) % p == (x * Pow(power, e)) % p
  {
    var k := e / 2;
    var y := if e % 2 == 1 then x * power else x;
    // Pow(power, e) == power^(e % 2) * (power * power)^k
    PowSquare(power, k);
    if e % 2 == 1 {
      assert e == 2 * k + 1;
      PowAdd(power, 1, 2 * k);
      assert Pow(power, 1) == power;
      assert x * Pow(power, e) == y * Pow(power * power, k);
      MulModLeft(x * power, Pow((power * power) % p, k), p);
    } else {
      assert e == 2 * k;
    }
    assert (x * Pow(power, e)) % p == (y * Pow(power * power, k)) % p;
    calc {
      (y * Pow((power * power) % p, k)) % p;
      { MulModRight(y, Pow((power * power) % p, k), p); }
      (y * (Pow((power * power) % p, k) % p)) % p;
      { PowMod(power * power, k, p); }
      (y * (Pow(power * power, k) % p)) % p;
      { MulModRight(y, Pow(power * power, k), p); }
      (y * Pow(power * power, k)) % p;
    }
  }

  /**
   * mod_exp: square-and-multiply over the bits of e, lowest first.
   * p == 0 would divide by zero and a negative e would never reach zero
   * under repeated halving, so both are excluded by the parameter types and
   * the precondition.
   */
  method ModExp(b: int, e: nat, p: int) returns (x: int)
    requires p > 0
    ensures e == 0 ==> x == 1
    ensures p >= 2 || e >= 1 ==> x == Pow(b, e) % p
    ensures e >= 1 ==> 0 <= x < p
    ensures x == ModExpValue(b, e, p)
  {
    x := 1;
    var power := b % p;
    var rest: nat := e;
    PowMod(b, e, p);
    while rest != 0
      invariant 0 <= power < p
      invariant e == 0 ==> x == 1
      invariant 0 <= x && (x < p || (x == 1 && (rest > 0 || e == 0)))
      invariant (x * Pow(power, rest)) % p == Pow(b, e) % p
      decreases rest
    {
      LoopStep(x, power, rest, p);
      if rest % 2 == 1 {
        x := (x * power) % p;
      }
      rest := rest / 2;
      power := (power * power) % p;
    }
    assert Pow(power, rest) == 1;
    assert x % p == Pow(b, e) % p;
    if e >= 1 {
      ModUnique(x, 0, x, p);
    }
  }

  /**
   * The base is reduced mod p before the loop, so bases congruent mod p --
   * a negative base and its non-negative residue among them -- give the
   * same result.
   */
  lemma CongruentBases(b1: int, b2: int, e: nat, p: int)
    requires p > 0 && b1 % p == b2 % p
    ensures ModExpValue(b1, e, p) == ModExpValue(b2, e, p)
  {
    PowMod(b1, e, p);
    PowMod(b2, e, p);
  }

  /** mod_exp(b, e, p) == mod_exp(b % p, e, p). */
  lemma ReducedBase(b: int, e: nat, p: int)
    requires p > 0
    ensures ModExpValue(b % p, e, p) == ModExpValue(b, e, p)
  {
    ModUnique(b % p, 0, b % p, p);
    CongruentBases(b % p, b, e, p);
  }

  /** For a modulus of at least 2 every result is a residue in [0, p-1]. */
  lemma ValueRange(b: int, e: nat, p: int)
    requires p >= 2
    ensures 0 <= ModExpValue(b, e, p) < p
    ensures ModExpValue(b, e, p) == Pow(b, e) % p
  {
    if e == 0 {
      ModUnique(1, 0, 1, p);
    }
  }

  /**
   * With p == 1 every reduced value is 0, but the unreduced accumulator
   * makes a zero exponent give 1, so the result is 1 mod p only for e >= 1.
   */
  lemma ModulusOne(b: int, e: nat)
    ensures ModExpValue(b, e, 1) == if e == 0 then 1 else 0
    ensures e == 0 ==> ModExpValue(b, e, 1) != Pow(b, e) % 1
  {
  }
}

/**
 * The two-party Diffie-Hellman exchange between Iker and Elena over the
 * group (p, g): each derives a public value g^secret mod p with mod_exp,
 * and each raises the other's public value to its own secret.
 *
 * The program fixes two 100-digit exponents (its random draws are
 * commented out); here they are arbitrary non-negative parameters.
 */
module DiffieHellman {
  import opened Power
  import opened ModularExponentiation

  /** The prime of the program's group `p = 761`, `g = 6`. */
  const P: int := 761
  /** The generator of the program's group `p = 761`, `g = 6`. */
  const G: int := 6

  /**
   * The shared secret is g^(a*c) mod p whichever party computes it, as
   * soon as the modulus is at least 2.
   */
  lemma SharedKey(g: int, a: nat, c: nat, p: int)
    requires p >= 2
    ensures ModExpValue(ModExpValue(g, a, p), c, p) == Pow(g, a * c) % p
  {
    ValueRange(g, a, p);
    ValueRange(ModExpValue(g, a, p), c, p);
    PowMod(Pow(g, a), c, p);
    PowMul(g, a, c);
  }

  /**
   * Both parties derive the same secret exactly when p >= 2 or the two
   * private exponents are both zero or both non-zero. With p == 1 a single
   * zero exponent yields the unreduced 1 on one side and 0 on the other.
   */
  lemma SharedSecretsAgree(g: int, a: nat, c: nat, p: int)
    requires p > 0
    ensures ModExpValue(ModExpValue(g, c, p), a, p) == ModExpValue(ModExpValue(g, a, p), c, p)
        <==> p >= 2 || (a == 0 <==> c == 0)
  {
    if p >= 2 {
      SharedKey(g, a, c, p);
      SharedKey(g, c, a, p);
      assert a * c == c * a;
    } else {
      ModulusOne(g, a);
      ModulusOne(g, c);
      ModulusOne(ModExpValue(g, a, p), c);
      ModulusOne(ModExpValue(g, c, p), a);
    }
  }

  /**
   * The exchange: public values xIker and yElena, then the shared secrets
   * kIker (Elena's public value to Iker's secret) and kElena (Iker's public
   * value to Elena's secret).
   */
  method Exchange(p: int, g: int, randomIker: nat, randomElena: nat)
    returns (xIker: int, yElena: int, kIker: int, kElena: int)
    requires p > 0
    ensures xIker == ModExpValue(g, randomIker, p) && yElena == ModExpValue(g, randomElena, p)
    ensures kIker == ModExpValue(yElena, randomIker, p) && kElena == ModExpValue(xIker, randomElena, p)
    ensures kIker == kElena <==> p >= 2 || (randomIker == 0 <==> randomElena == 0)
    ensures p >= 2 ==> kIker == Pow(g, randomIker * randomElena) % p
    ensures p >= 2 ==> 0 <= xIker < p && 0 <= yElena < p && 0 <= kIker < p && 0 <= kElena < p
  {
    xIker := ModExp(g, randomIker, p);
    yElena := ModExp(g, randomElena, p);
    kIker := ModExp(yElena, randomIker, p);
    kElena := ModExp(xIker, randomElena, p);
    SharedSecretsAgree(g, randomIker, randomElena, p);
    if p >= 2 {
      SharedKey(g, randomElena, randomIker, p);
      assert randomElena * randomIker == randomIker * randomElena;
      ValueRange(g, randomIker, p);
      ValueRange(g, randomElena, p);
      ValueRange(yElena, randomIker, p);
      ValueRange(xIker, randomElena, p);
    }
  }

  /**
   * The exchange over the program's group `p = 761`, `g = 6`, for any pair
   * of private exponents: the four values are the mod_exp results, both
   * secrets equal 6^(randomIker * randomElena) mod 761, and all four values
   * lie in [0, 760].
   */
  method ReferenceExchange(randomIker: nat, randomElena: nat)
    returns (xIker: int, yElena: int, kIker: int, kElena: int)
    ensures xIker == ModExpValue(G, randomIker, P) && yElena == ModExpValue(G, randomElena, P)
    ensures kIker == ModExpValue(yElena, randomIker, P) && kElena == ModExpValue(xIker, randomElena, P)
    ensures kIker == kElena == Pow(G, randomIker * randomElena) % P
    ensures 0 <= xIker <= 760 && 0 <= yElena <= 760
    ensures 0 <= kIker <= 760 && 0 <= kElena <= 760
  {
    xIker, yElena, kIker, kElena := Exchange(P, G, randomIker, randomElena);
  }
}

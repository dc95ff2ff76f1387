# Diffie-Hellman key exchange over square-and-multiply modular exponentiation

This project models a textbook Diffie-Hellman exchange between two parties,
Iker and Elena. The core is `mod_exp(b, e, p)`, which computes `b^e mod p` by
right-to-left square-and-multiply. An accumulator `x` starts at 1 and `power`
starts at `b % p`. Each pass multiplies `x` by `power` when the low bit of `e`
is set, halves `e`, and squares `power`, reducing mod `p` each time.

On top of it sits the exchange over the group `p = 761`, `g = 6`:

- Iker publishes `xIker = mod_exp(g, randomIker, p)`;
- Elena publishes `yElena = mod_exp(g, randomElena, p)`;
- Iker derives `kIker = mod_exp(yElena, randomIker, p)`;
- Elena derives `kElena = mod_exp(xIker, randomElena, p)`.

Files:

- `power.dfy` (module `Power`): the reference power `Pow(b, e)`, and lemmas on
  powers and on reduction mod a positive modulus.
- `mod_exp.dfy` (module `ModularExponentiation`): `ModExp`, the loop as a
  method. `ModExpValue` is the pure function that states what it returns.
  The lemmas about that value follow it.
- `diffie_hellman.dfy` (module `DiffieHellman`): the exchange as a
  straight-line method that calls `ModExp` four times, and the agreement
  lemmas behind it.

`e & 1` is modelled as `e % 2 == 1`, `e >>= 1` as `e / 2` on a `nat`, and
`while e:` as `while rest != 0`. Python's `%` floors. Dafny's `%` is
Euclidean. For the positive modulus required here the two agree, also for a
negative base.

Mathematically `b^0 mod 1` is 0. The program returns 1 for `e == 0` and
`p == 1`, because `x = 1` is never reduced when the loop does not run
(`ModulusOne`). So with `p == 1` the two shared secrets differ when exactly
one private exponent is 0 (`SharedSecretsAgree`).

## Model

| member | source | states |
|---|---|---|
| `ModularExponentiation.ModExp` | Diffie-Hellman/Izaguirre_Ayerregaray_Iker_Diffie-Hellman.py:4-18 | for `p > 0` and `e >= 0` the loop terminates (e strictly decreases); it returns exactly 1 when `e == 0`, even for `p == 1`; it returns `b^e mod p` whenever `p >= 2` or `e >= 1`; for `e >= 1` the result lies in `[0, p-1]`. The loop keeps `x * power^e mod p == b^e0 mod p` and `0 <= power < p` as invariants |
| `ModularExponentiation.LoopStep` | Diffie-Hellman/Izaguirre_Ayerregaray_Iker_Diffie-Hellman.py:10-16 | one pass of the loop body (conditional multiply, halving, squaring, each reduced mod `p`) leaves `x * power^e mod p` unchanged |
| `ModularExponentiation.CongruentBases` | Diffie-Hellman/Izaguirre_Ayerregaray_Iker_Diffie-Hellman.py:8 | bases congruent mod `p` give the same result, so a negative base gives the same result as its non-negative residue |
| `ModularExponentiation.ReducedBase` | Diffie-Hellman/Izaguirre_Ayerregaray_Iker_Diffie-Hellman.py:8 | `mod_exp(b % p, e, p) == mod_exp(b, e, p)` |
| `ModularExponentiation.ValueRange` | Diffie-Hellman/Izaguirre_Ayerregaray_Iker_Diffie-Hellman.py:7-18 | for `p >= 2` the result is `b^e mod p` for every `e >= 0`, including `e == 0`, and it lies in `[0, p-1]` |
| `ModularExponentiation.ModulusOne` | Diffie-Hellman/Izaguirre_Ayerregaray_Iker_Diffie-Hellman.py:7-18 | with `p == 1` the result is 1 for `e == 0` and 0 otherwise; for `e == 0` it differs from `b^e mod 1` |
| `DiffieHellman.SharedKey` | Diffie-Hellman/Izaguirre_Ayerregaray_Iker_Diffie-Hellman.py:31-35 | for `p >= 2`, raising one party's public value to the other party's secret gives `g^(a*c) mod p` |
| `DiffieHellman.SharedSecretsAgree` | Diffie-Hellman/Izaguirre_Ayerregaray_Iker_Diffie-Hellman.py:31-35 | `mod_exp(mod_exp(g, c, p), a, p) == mod_exp(mod_exp(g, a, p), c, p)` holds if and only if `p >= 2` or both exponents are zero or both are non-zero |
| `DiffieHellman.Exchange` | Diffie-Hellman/Izaguirre_Ayerregaray_Iker_Diffie-Hellman.py:31-35 | the four values are the `mod_exp` calls of the exchange; `kIker == kElena` under the condition of `SharedSecretsAgree`; for `p >= 2` the shared secret is `g^(randomIker*randomElena) mod p` and all four values lie in `[0, p-1]` |
| `DiffieHellman.ReferenceExchange` | Diffie-Hellman/Izaguirre_Ayerregaray_Iker_Diffie-Hellman.py:21-35 | with `p = 761` and `g = 6`, for any private exponents, the four values are the `mod_exp` calls of the exchange, the shared secret is `6^(randomIker*randomElena) mod 761`, `kIker == kElena`, and the public values and shared secrets lie in `[0, 760]` |

## Left out

- The random draw of the private exponents (`random.randint(1, 10**100)`, commented out in the program) is an external randomness source. The exponents are parameters of `Exchange` and `ReferenceExchange`.
- The two concrete 100-digit exponents of the program are not evaluated. `ReferenceExchange` proves agreement and range for every pair of exponents, these two included.
- The program assigns module-level variables in sequence. The model passes `p`, `g` and the exponents as parameters instead.
- ModExp: a modulus `p == 0` raises a division error in the program, and a negative `e` never reaches 0 under `>>=` so the loop never ends. Both are excluded by the precondition `p > 0` and the type `e: nat`.
- ModExp: a negative modulus runs in the program and gives floored remainders in `(p, 0]`. It is excluded by `p > 0` because the exchange works over a positive modulus.
- Running time, timing side channels, and the primality or security of `p = 761` are not modelled. The program makes no claim about them.

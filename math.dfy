/** The number theory of `src/helpers/math.rs`: square-and-multiply modular
    exponentiation, the primality check (a stub in this revision) and the
    search for a prime from a random start. The random start is a
    parameter: the thread RNG of `gen_big_num` is not part of this model. */
module Math {

  function Pow(b: nat, e: nat): nat
    decreases e
  {
    if e == 0 then 1 else b * Pow(b, e - 1)
  }

  /** What `mod_pow(b, e, md)` returns: `b^e mod md` for a positive exponent,
      and the unreduced 1 for exponent 0 (so 1 even when `md` is 1). A zero
      modulus is a division by zero unless the exponent is 0. */
  function ModExp(b: nat, e: nat, md: nat): nat
    requires md > 0 || e == 0
  {
    if e == 0 then 1 else Pow(b, e) % md
  }

  lemma {:induction false} PowAdd(b: nat, i: nat, j: nat)
    ensures Pow(b, i + j) == Pow(b, i) * Pow(b, j)
    decreases i
  {
    if i > 0 {
      PowAdd(b, i - 1, j);
      assert Pow(b, i + j) == b * Pow(b, i - 1 + j);
    }
  }

  /** Squaring the base halves the exponent. */
  lemma {:induction false} PowSquare(b: nat, k: nat)
    ensures Pow(b * b, k) == Pow(b, 2 * k)
    decreases k
  {
    if k > 0 {
      PowSquare(b, k - 1);
      PowAdd(b, 2, 2 * (k - 1));
      assert Pow(b, 2) == b * b;
    }
  }

  /** `(k * m + y) % m == y % m`. */
  lemma ModAddMultiple(k: nat, m: nat, y: nat)
    requires m > 0
    ensures (k * m + y) % m == y % m
  {
    var q := y / m;
    assert k * m + y == (k + q) * m + y % m;
    DivModUnique(k * m + y, m, k + q, y % m);
  }

  /** Euclidean division is unique. */
  lemma DivModUnique(a: int, m: nat, q: int, r: nat)
    requires m > 0 && a == q * m + r && r < m
    ensures a / m == q && a % m == r
  {
    var q2, r2 := a / m, a % m;
    assert (q2 - q) * m == q2 * m - q * m == r - r2;
    MultipleBound(q2 - q, m);
  }

  /** A number at least `m` has a positive quotient by `m`. */
  lemma QuotientPositive(x: nat, m: nat)
    requires 1 < m <= x
    ensures 1 <= x / m < x && x % m < m
  {
    var q, r := x / m, x % m;
    assert q * m == x - r > 0;
    MultipleBound(q, m);
    assert q * m == 2 * q + (m - 2) * q;
  }

  /** A non-zero multiple of `m` is at least `m` away from zero. */
  lemma MultipleBound(a: int, m: int)
    requires m > 0
    ensures a >= 1 ==> a * m >= m
    ensures a <= -1 ==> a * m <= -m
  {
    if a >= 1 {
      assert a * m == m + (a - 1) * m;
    } else if a <= -1 {
      assert a * m == -m + (a + 1) * m;
    }
  }

  /** Reducing a factor before multiplying does not change the residue. */
  lemma MulModLeft(a: nat, b: nat, m: nat)
    requires m > 0
    ensures ((a % m) * b) % m == (a * b) % m
  {
    var q := a / m;
    assert a * b == (q * b) * m + (a % m) * b;
    ModAddMultiple(q * b, m, (a % m) * b);
  }

  lemma MulModRight(a: nat, b: nat, m: nat)
    requires m > 0
    ensures (a * (b % m)) % m == (a * b) % m
  {
    MulModLeft(b, a, m);
  }

  /** Reducing the base before raising it does not change the residue. */
  lemma {:induction false} PowMod(b: nat, k: nat, m: nat)
    requires m > 0
    ensures Pow(b % m, k) % m == Pow(b, k) % m
    decreases k
  {
    if k > 0 {
      PowMod(b, k - 1, m);
      calc {
        Pow(b % m, k) % m;
        ((b % m) * Pow(b % m, k - 1)) % m;
        { MulModRight(b % m, Pow(b % m, k - 1), m); }
        ((b % m) * (Pow(b % m, k - 1) % m)) % m;
        ((b % m) * (Pow(b, k - 1) % m)) % m;
        { MulModRight(b % m, Pow(b, k - 1), m); }
        ((b % m) * Pow(b, k - 1)) % m;
        { MulModLeft(b, Pow(b, k - 1), m); }
        (b * Pow(b, k - 1)) % m;
      }
    }
  }

  /** One round of the square-and-multiply loop keeps
      `res * base^exponent mod md` unchanged. */
  lemma ModPowStep(res: nat, base: nat, exponent: nat, md: nat)
    requires md > 0 && exponent > 0
    ensures var res' := if exponent % 2 == 1 then (res * base) % md else res;
            (res' * Pow((base * base) % md, exponent / 2)) % md == (res * Pow(base, exponent)) % md
  {
    var k := exponent / 2;
    var sq := Pow(base * base, k);
    calc {
      Pow((base * base) % md, k) % md;
      { PowMod(base * base, k, md); }
      sq % md;
    }
    PowSquare(base, k);
    assert sq == Pow(base, 2 * k);
    if exponent % 2 == 1 {
      var res' := (res * base) % md;
      calc {
        (res' * Pow((base * base) % md, k)) % md;
        { MulModRight(res', Pow((base * base) % md, k), md); }
        (res' * (Pow((base * base) % md, k) % md)) % md;
        (res' * (sq % md)) % md;
        { MulModRight(res', sq, md); }
        (res' * sq) % md;
        { MulModLeft(res * base, sq, md); }
        ((res * base) * sq) % md;
        { assert (res * base) * sq == res * (base * Pow(base, 2 * k)); }
        (res * (base * Pow(base, 2 * k))) % md;
        { assert exponent == 2 * k + 1; }
        (res * Pow(base, exponent)) % md;
      }
    } else {
      calc {
        (res * Pow((base * base) % md, k)) % md;
        { MulModRight(res, Pow((base * base) % md, k), md); }
        (res * (Pow((base * base) % md, k) % md)) % md;
        (res * (sq % md)) % md;
        { MulModRight(res, sq, md); }
        (res * sq) % md;
        { assert exponent == 2 * k; }
        (res * Pow(base, exponent)) % md;
      }
    }
  }

  /** `mod_pow`: right-to-left binary exponentiation. Each round multiplies
      the result by the current base when the low bit of the exponent is
      set, squares the base and shifts the exponent right, all modulo `md`. */
  method ModPow(b: nat, e: nat, md: nat) returns (res: nat)
    requires md > 0 || e == 0
    ensures res == ModExp(b, e, md)
    ensures e > 0 ==> res < md
  {
    res := 1;
    var base: nat, exponent: nat := b, e;
    while exponent > 0
      invariant md > 0 || exponent == 0
      invariant exponent <= e
      invariant e == 0 ==> res == 1
      invariant md > 0 ==> (res * Pow(base, exponent)) % md == Pow(b, e) % md
      invariant e > 0 && exponent == 0 ==> res < md
      decreases exponent
    {
      ModPowStep(res, base, exponent, md);
      if exponent % 2 == 1 {
        res := (res * base) % md;
      }
      exponent := exponent / 2;
      base := (base * base) % md;
    }
    if e > 0 {
      assert Pow(base, exponent) == 1;
      DivModUnique(res, md, 0, res);
    }
  }

  /** The two vectors of the source's unit test. */
  lemma ModExpTestVectors()
    ensures ModExp(4, 13, 497) == 445
    ensures ModExp(5, 3, 13) == 8
  {
    assert Pow(4, 13) == 67108864;
    assert Pow(5, 3) == 125;
  }

  /** For a positive exponent the result lies in `[0, md)` and is congruent
      to `b^e`, whatever `b` is reduced to first. */
  lemma ModExpReduced(b: nat, e: nat, md: nat)
    requires md > 0 && e > 0
    ensures ModExp(b, e, md) < md
    ensures ModExp(b % md, e, md) == ModExp(b, e, md)
  {
    PowMod(b, e, md);
  }

  /** `rabin_miller` in this revision: its body is empty apart from `true`,
      so every candidate is accepted. */
  function RabinMiller(proposal: nat): (accepted: bool)
    ensures accepted
  {
    true
  }

  /** `is_prime`: rejects exactly what `rabin_miller` rejects. */
  function IsPrime(proposal: nat): (accepted: bool)
    ensures accepted == RabinMiller(proposal)
  {
    if !RabinMiller(proposal) then false else true
  }

  /** The first candidate of the search: the sample made odd by adding one
      when it is even. */
  function FirstCandidate(sample: nat): (c: nat)
    ensures c % 2 == 1
    ensures sample % 2 == 1 ==> c == sample
    ensures sample % 2 == 0 ==> c == sample + 1
  {
    if sample % 2 == 0 then sample + 1 else sample
  }

  /** The loop of `gen_big_prime` for an arbitrary acceptance test: from the
      first candidate, step by 2 until a candidate is accepted. It returns
      the first accepted odd candidate at or after the start. The ghost `k`
      names one accepted candidate, which bounds the search. */
  method GenBigPrimeWith(sample: nat, isPrime: nat -> bool, ghost k: nat) returns (proposal: nat)
    requires isPrime(FirstCandidate(sample) + 2 * k)
    ensures isPrime(proposal)
    ensures proposal % 2 == 1
    ensures FirstCandidate(sample) <= proposal <= FirstCandidate(sample) + 2 * k
    ensures forall c: nat :: FirstCandidate(sample) <= c < proposal && c % 2 == 1 ==> !isPrime(c)
  {
    proposal := sample;
    if proposal % 2 == 0 {
      proposal := proposal + 1;
    }
    ghost var start := proposal;
    while !isPrime(proposal)
      invariant start == FirstCandidate(sample)
      invariant start <= proposal <= start + 2 * k
      invariant proposal % 2 == 1
      invariant forall c: nat :: start <= c < proposal && c % 2 == 1 ==> !isPrime(c)
      decreases start + 2 * k - proposal
    {
      proposal := proposal + 2;
    }
  }

  /** `gen_big_prime` with the `is_prime` of this revision, for the random
      sample `sample`: since every candidate is accepted, the result is the
      first candidate itself, odd and so never 0 (1 when the sample is 0). */
  method GenBigPrime(sample: nat) returns (p: nat)
    ensures p == FirstCandidate(sample)
    ensures IsPrime(p) && p % 2 == 1 && p >= 1
  {
    assert IsPrime(FirstCandidate(sample) + 2 * 0);
    p := GenBigPrimeWith(sample, IsPrime, 0);
  }
}

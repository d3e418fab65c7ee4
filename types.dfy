/** The key types of `src/types.rs`: the threshold value object, the public
    and secret keys with their plain and coprimality-checking constructors,
    textbook encryption and decryption, and key pair generation.

    The extended Euclidean algorithm `egcd` and the exponent search `find_e`
    are called by this file but their bodies are not part of this model; they
    are parameters (`Egcd`, `FindE`) about which nothing is assumed beyond
    their types. `mod_exp_pow` is taken to be `mod_pow` of `math.rs`
    (`Math.ModExp`). */
module Types {
  import opened Outcomes
  import opened Math
  import opened Radix
  import opened Utf8
  import opened Generics

  datatype PublicKey = PublicKey(n: nat, e: nat)

  datatype SecretKey = SecretKey(n: nat, d: nat)

  datatype KeyPair = KeyPair(pk: PublicKey, sk: SecretKey, size: u32, threshold: u32)

  /** The round count meant for the primality test. */
  datatype Threshold = Threshold(value: u32)

  /** `egcd(a, b)`: a triple whose component 0 the callers read as the gcd
      and whose component 2 `KeyPair::new` takes as the private exponent. */
  type Egcd = (int, int) -> (int, int, int)

  /** `find_e(fi_n)`, unwrapped by its caller: None stands for the failure
      that `unwrap` turns into a panic. */
  type FindE = nat -> Option<nat>

  /** `Threshold::value`: the value is all there is to a threshold. */
  function ThresholdValue(th: Threshold): (v: u32)
    ensures Threshold(v) == th
  {
    th.value
  }

  /** `From<u32> for Threshold`. */
  function ThresholdFrom(val: u32): (th: Threshold)
    ensures ThresholdValue(th) == val
  {
    Threshold(val)
  }

  /** `Threshold::default`: the value is 9, whatever its doc comment says
      about an error probability of 4^-64. */
  function ThresholdDefault(): (th: Threshold)
    ensures ThresholdValue(th) == 9
  {
    Threshold(9)
  }

  /** `Threshold::new`. */
  function ThresholdNew(th: u32): (t: Threshold)
    ensures ThresholdValue(t) == th
  {
    Threshold(th)
  }

  /** A threshold is determined by its value: `new` and `from` rebuild any
      threshold from `value`, and they agree with each other. */
  lemma ThresholdRoundTrip(t: Threshold, v: u32)
    ensures ThresholdNew(ThresholdValue(t)) == t
    ensures ThresholdFrom(ThresholdValue(t)) == t
    ensures ThresholdFrom(v) == ThresholdNew(v)
  {
  }

  /** `PublicKey::new`: always `Ok`, with both fields copied. */
  function NewPublicKey(n: nat, e: nat): (r: Result<PublicKey>)
    ensures r.Ok? && r.value.n == n && r.value.e == e
  {
    Ok(PublicKey(n, e))
  }

  /** `PublicKey::new_from_fi_n_e`: accepts `e` exactly when the gcd component
      of `egcd(fi_n, e)` is 1, and then copies `n` and `e`. */
  function NewPublicKeyFromFiNE(n: nat, fiN: nat, e: nat, egcd: Egcd): (r: Result<PublicKey>)
    ensures r.Ok? <==> egcd(fiN, e).0 == 1
    ensures r.Ok? ==> r.value.n == n && r.value.e == e
  {
    var (possibleOne, _, _) := egcd(fiN, e);
    if possibleOne == 1 then Ok(PublicKey(n, e))
    else Err("Params passed to Sk builder haven't the right properties to be a Public Key")
  }

  /** `SecretKey::new`: always `Ok`, with both fields copied. */
  function NewSecretKey(n: nat, d: nat): (r: Result<SecretKey>)
    ensures r.Ok? && r.value.n == n && r.value.d == d
  {
    Ok(SecretKey(n, d))
  }

  /** `SecretKey::new_from_fi_n_e`: accepts `d` exactly when the gcd
      component of `egcd(fi_n, d)` is 1, and then copies `n` and `d`. */
  function NewSecretKeyFromFiND(n: nat, fiN: nat, d: nat, egcd: Egcd): (r: Result<SecretKey>)
    ensures r.Ok? <==> egcd(fiN, d).0 == 1
    ensures r.Ok? ==> r.value.n == n && r.value.d == d
  {
    var (possibleOne, _, _) := egcd(fiN, d);
    if possibleOne == 1 then Ok(SecretKey(n, d))
    else Err("Params passed to Sk builder haven't the properties to be a Public Key")
  }

  /** A key built by the checking constructor is the one the plain
      constructor builds from the same fields, whenever the check passes. */
  lemma CheckedConstructorsAgree(n: nat, fiN: nat, x: nat, egcd: Egcd)
    requires egcd(fiN, x).0 == 1
    ensures NewPublicKeyFromFiNE(n, fiN, x, egcd) == NewPublicKey(n, x)
    ensures NewSecretKeyFromFiND(n, fiN, x, egcd) == NewSecretKey(n, x)
  {
  }

  /** `PublicKey::encrypt` on the bytes of the message: a non-ASCII byte is an
      error; otherwise the message is read as a big-endian number `m` and the
      ciphertext is `m^e mod n` written in lower-case hexadecimal. The message
      is not compared with `n`. A zero modulus panics in `mod_pow` unless `e`
      is 0. */
  function Encrypt(pk: PublicKey, msg: seq<u8>): (r: Run<string>)
    ensures r.Returns? && r.result.Err? <==> !IsAscii(msg)
    ensures r.Panics? <==> IsAscii(msg) && pk.n == 0 && pk.e > 0
    ensures !r.Diverges?
    ensures r.Returns? && r.result.Ok? ==>
              FromStrRadix(r.result.value, 16) == Some(ModExp(FromBytesBe(msg), pk.e, pk.n))
    ensures r.Returns? && r.result.Ok? ==>
              |r.result.value| >= 1 && forall i :: 0 <= i < |r.result.value| ==> IsLowerDigit(r.result.value[i], 16)
    ensures r.Returns? && r.result.Ok? ==> (r.result.value[0] == '0' ==> |r.result.value| == 1)
  {
    if !IsAscii(msg) then Returns(Err("Message isn't ASCII like. Please remove non-ASCII characters."))
    else if pk.n == 0 && pk.e > 0 then Panics("attempt to calculate the remainder with a divisor of zero")
    else
      var c := ModExp(FromBytesBe(msg), pk.e, pk.n);
      StrRadixRoundTrip(c, 16);
      ToStrRadixDigits(c, 16);
      Returns(Ok(ToStrRadix(c, 16)))
  }

  /** `SecretKey::decrypt`: parses the hexadecimal ciphertext `c` (its `unwrap`
      panics on a malformed text), computes `c^d mod n`, takes its big-endian
      bytes and checks they are UTF-8 (its `unwrap` panics otherwise). It
      never returns `Err`. */
  function Decrypt(sk: SecretKey, text: string): (r: Run<seq<u8>>)
    ensures !r.Diverges? && (r.Returns? ==> r.result.Ok?)
    ensures FromStrRadix(text, 16).None? ==> r.Panics?
    ensures sk.n == 0 && sk.d > 0 ==> r.Panics?
    ensures r.Returns? ==>
              FromStrRadix(text, 16).Some? && (sk.n > 0 || sk.d == 0) &&
              FromBytesBe(r.result.value) == ModExp(FromStrRadix(text, 16).value, sk.d, sk.n) &&
              Canonical(r.result.value, 256) && ValidUtf8(r.result.value)
    ensures r.Panics? && FromStrRadix(text, 16).Some? && (sk.n > 0 || sk.d == 0) ==>
              !ValidUtf8(ToBytesBe(ModExp(FromStrRadix(text, 16).value, sk.d, sk.n)))
  {
    match FromStrRadix(text, 16)
    case None => Panics("called `Result::unwrap()` on an `Err` value: ParseBigIntError")
    case Some(c) =>
      if sk.n == 0 && sk.d > 0 then Panics("attempt to calculate the remainder with a divisor of zero")
      else
        var bytes := ToBytesBe(ModExp(c, sk.d, sk.n));
        if ValidUtf8(bytes) then Returns(Ok(bytes))
        else Panics("called `Result::unwrap()` on an `Err` value: Utf8Error")
  }

  /** The encoding pipeline is lossless: whenever the two exponentiations
      undo each other on the message number `m` (what RSA promises for keys
      built from two distinct primes and `m < n`), decrypting the ciphertext
      of an ASCII message gives the message back, provided the message does
      not start with a zero byte (which `to_bytes_be` drops) and is not empty. */
  lemma EncryptDecrypt(pk: PublicKey, sk: SecretKey, msg: seq<u8>)
    requires pk.n == sk.n && pk.n > 0
    requires IsAscii(msg) && Canonical(msg, 256)
    requires ModExp(ModExp(FromBytesBe(msg), pk.e, pk.n), sk.d, sk.n) == FromBytesBe(msg)
    ensures Encrypt(pk, msg).Returns? && Encrypt(pk, msg).result.Ok?
    ensures Decrypt(sk, Encrypt(pk, msg).result.value) == Returns(Ok(msg))
  {
    var m := FromBytesBe(msg);
    var c := ModExp(m, pk.e, pk.n);
    var text := Encrypt(pk, msg).result.value;
    assert FromStrRadix(text, 16) == Some(c);
    BytesRoundTrip(msg);
    AsciiIsValidUtf8(msg);
  }

  /** The empty message does not survive the pipeline: it encrypts to "0" and
      that decrypts to the single byte 0, because `from_bytes_be([])` is 0 and
      `to_bytes_be(0)` is `[0]`. */
  lemma EmptyMessageComesBackAsNul(pk: PublicKey, sk: SecretKey)
    requires pk.n == sk.n && pk.n > 0 && pk.e > 0 && sk.d > 0
    ensures Encrypt(pk, []) == Returns(Ok("0"))
    ensures Decrypt(sk, "0") == Returns(Ok([0]))
  {
    assert Pow(0, pk.e) == 0;
    assert Pow(0, sk.d) == 0;
    assert ToRadixBe(0, 16) == [0];
    assert ToStrRadix(0, 16) == "0" by {
      assert ToStrRadix(0, 16)[0] == DigitChar(0);
    }
    assert FromStrRadix("0", 16) == Some(0) by {
      assert ParseDigits("0"[1..], 16) == Some([]);
    }
    assert ValidUtf8([0]) by {
      assert LeadingCharLength([0]) == 1;
      assert [0 as u8][1..] == [];
    }
  }

  /** Messages are not checked against the modulus: two ASCII messages whose
      numbers agree modulo `n` have the same ciphertext, so the larger one
      cannot be recovered. */
  lemma EncryptWrapsModulus(pk: PublicKey, msg1: seq<u8>, msg2: seq<u8>)
    requires pk.n > 0 && pk.e > 0 && IsAscii(msg1) && IsAscii(msg2)
    requires FromBytesBe(msg1) % pk.n == FromBytesBe(msg2) % pk.n
    ensures Encrypt(pk, msg1) == Encrypt(pk, msg2)
  {
    ModExpReduced(FromBytesBe(msg1), pk.e, pk.n);
    ModExpReduced(FromBytesBe(msg2), pk.e, pk.n);
  }

  /** The private exponent `KeyPair::new` derives from the coefficient `d0`:
      `d0` itself when it is not negative; otherwise `d0` moved up by whole
      multiples of `fiN` into `[0, fiN)`. */
  function NormalisedExponent(d0: int, fiN: nat): (d: nat)
    requires d0 >= 0 || fiN > 0
    ensures d0 >= 0 ==> d == d0
    ensures d0 < 0 ==> d < fiN && (d - d0) % fiN == 0
  {
    if d0 >= 0 then d0
    else
      DivModUnique(d0 % fiN - d0, fiN, -(d0 / fiN), 0);
      d0 % fiN
  }

  /** One round of the normalisation loop does not change where it ends. */
  lemma NormalisedExponentShift(d: int, fiN: nat)
    requires d < 0 && fiN > 0
    ensures NormalisedExponent(d + fiN, fiN) == NormalisedExponent(d, fiN)
  {
    var q := d / fiN;
    assert d == q * fiN + d % fiN;
    if d + fiN >= 0 {
      DivModUnique(d, fiN, -1, d + fiN);
    } else {
      DivModUnique(d + fiN, fiN, q + 1, d % fiN);
    }
  }

  /** If `egcd` returns Bezout coefficients with gcd 1 (`fiN * x + e * y == 1`),
      the normalised exponent is an inverse of `e` modulo `fiN`, the relation
      between the exponents that textbook RSA needs. */
  lemma {:induction false} NormalisedExponentInverts(fiN: nat, e: nat, x: int, y: int)
    requires fiN > 1 && fiN * x + e * y == 1
    ensures (e * NormalisedExponent(y, fiN)) % fiN == 1
  {
    var d := NormalisedExponent(y, fiN);
    var k := (d - y) / fiN;
    assert d - y == k * fiN;
    assert e * d == (e * k - x) * fiN + 1;
    var q := e * k - x;
    MultipleBound(q, fiN);
    assert q >= 0;
    DivModUnique(e * d, fiN, q, 1);
  }

  /** `(p - 1) * (q - 1)`, Euler's totient of `p * q` when `p` and `q` are
      distinct primes. */
  function Totient(p: nat, q: nat): nat
    requires p >= 1 && q >= 1
  {
    (p - 1) * (q - 1)
  }

  /** `KeyPair::new` for the random samples `sampleP` and `sampleQ` drawn by
      `gen_big_num`: two primes from `gen_big_prime`, `n = p * q`,
      `fi_n = (p - 1) * (q - 1)` (never negative: the primes are odd, so at
      least 1), `e` from `find_e` (its `unwrap` panics on failure), the
      public key, then `d` from component 2 of `egcd(fi_n, e)`, raised by
      `fi_n` while negative. That loop never ends when `fi_n` is 0 and `d` is
      negative; otherwise the secret key is built and the pair returned. */
  method NewKeyPair(size: u32, threshold: Threshold, sampleP: nat, sampleQ: nat, egcd: Egcd, findE: FindE)
    returns (r: Run<KeyPair>)
    ensures var fiN := Totient(FirstCandidate(sampleP), FirstCandidate(sampleQ));
            r.Panics? <==> findE(fiN).None?
    ensures var fiN := Totient(FirstCandidate(sampleP), FirstCandidate(sampleQ));
            r.Diverges? <==> findE(fiN).Some? && fiN == 0 && egcd(fiN, findE(fiN).value).2 < 0
    ensures r.Returns? ==> r.result.Ok?
    ensures r.Returns? ==>
              var p, q := FirstCandidate(sampleP), FirstCandidate(sampleQ);
              var fiN := Totient(p, q);
              var e := findE(fiN).value;
              r.result.value == KeyPair(PublicKey(p * q, e),
                                        SecretKey(p * q, NormalisedExponent(egcd(fiN, e).2, fiN)),
                                        size, ThresholdValue(threshold))
  {
    var (_, one, _) := GenBasicBigUints();
    var p := GenBigPrime(sampleP);
    var q := GenBigPrime(sampleQ);
    var n := p * q;
    var pMinusOne: nat, qMinusOne: nat := p - one, q - one;
    var fiN := pMinusOne * qMinusOne;
    var found := findE(fiN);
    if found.None? {
      return Panics("called `Option::unwrap()` on a `None` value");
    }
    var e := found.value;
    var pk := NewPublicKey(n, e).value;
    var (_, _, d) := egcd(fiN, e);
    if fiN == 0 && d < 0 {
      // `d = d + fi_n` leaves `d` negative forever.
      return Diverges;
    }
    ghost var d0 := d;
    while d < 0
      invariant d >= 0 || fiN > 0
      invariant NormalisedExponent(d, fiN) == NormalisedExponent(d0, fiN)
      decreases -d
    {
      NormalisedExponentShift(d, fiN);
      d := d + fiN;
    }
    var sk := NewSecretKey(n, BigUintFromBigInt(d).value).value;
    return Returns(Ok(KeyPair(pk, sk, size, threshold.value)));
  }
}

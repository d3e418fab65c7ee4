# Textbook RSA key generation (rust-rsa), modelled in Dafny

This project models the core of a small Rust crate. The crate generates RSA key
pairs over arbitrary-precision integers and does textbook RSA encryption and
decryption of ASCII text. The model covers three source files:

- `src/helpers/math.rs`:
  - square-and-multiply modular exponentiation (`mod_pow`);
  - the primality check, whose `rabin_miller` is a stub that accepts every
    candidate in this revision;
  - the prime search `gen_big_prime`, which makes a random sample odd and
    steps by 2 until a candidate passes.
- `src/types.rs`:
  - the `Threshold` value object;
  - `PublicKey` and `SecretKey`, each with a plain constructor and a
    constructor that checks coprimality;
  - `encrypt`, which checks the message is ASCII, reads its bytes as a
    big-endian number, applies the modular power and writes lower-case hex;
  - `decrypt`, which parses the hex, applies the modular power, takes the
    big-endian bytes and checks they are UTF-8;
  - `KeyPair::new`, with its loop that lifts a negative private exponent by
    `fi_n`.
- `src/helpers/generics.rs`:
  - the constants 0, 1 and 2;
  - the checked signed-to-unsigned conversion;
  - `encode_to_print!`, which Base64-encodes the base-16 digit values of a
    number.

Integers are Dafny's unbounded `nat`/`int`, as `BigUint`/`BigInt` are. The
library conversions the source calls are modelled by their mathematical
definitions, in modules of their own:

- `Radix`: positional digits, big-endian bytes and radix strings
  (num_bigint's `to_radix_be`, `from_bytes_be`, `to_bytes_be`,
  `to_str_radix`, `from_str_radix`).
- `Base64`: the standard alphabet with padding, section 4 of RFC 4648.
- `Utf8`: the well-formedness rule of section 4 of RFC 3629, which is what
  `str::from_utf8` accepts.

A Rust `panic` (an `unwrap` of a failure, a division by zero) and a loop that
never ends are values of `Outcomes.Run` (`Panics`, `Diverges`), with two
exceptions that are preconditions instead:

- `Math.ModPow` requires `md > 0 || e == 0`, which excludes the division by
  zero of `%`.
- `Math.GenBigPrimeWith` requires a ghost witness that some candidate is
  accepted, which excludes the search that never ends.

Assumptions and parameters:

- `types.rs` calls `mod_exp_pow`, whose body is not part of this model. It is
  taken to be the `mod_pow` of `math.rs`, specified by `Math.ModExp`.
- `types.rs` also calls `egcd` and `find_e`, whose bodies are not part of
  this model. They are function parameters (`Types.Egcd`, `Types.FindE`).
  As Dafny function types they return on every input, never panic and are
  deterministic; nothing else is assumed about them. Component 0 of
  `egcd` is read as the gcd and component 2 is taken as `d`. `find_e` returns
  an optional `e`, and its `unwrap` panics on failure.
- The thread RNG of `gen_big_num` becomes a `sample` parameter.
- `types.rs:88` passes two arguments to `gen_big_prime`, but the definition
  at `math.rs:15` takes one. The model follows the definition, and the
  threshold is not consumed.
- A message (`&str`) is modelled as its UTF-8 bytes, `seq<u8>`.

## Model

| member | source | states |
|---|---|---|
| `Math.ModPow` | src/helpers/math.rs:42-56 | The loop returns `ModExp(b, e, md)`: `b^e mod md` for `e > 0` and the unreduced 1 for `e == 0`, so the result is 1 even when `md == 1`. For `e > 0` the result is below `md`. A zero modulus is allowed only with exponent 0, because otherwise `%` divides by zero. The invariant is `res * base^exponent ≡ b^e (mod md)`, and the loop ends because `exponent` halves each round. |
| `Math.ModPowStep` | src/helpers/math.rs:48-54 | One round (multiply when the low bit is set, square the base, shift the exponent) keeps `res * base^exponent mod md` unchanged. |
| `Math.ModExpTestVectors` | src/helpers/math.rs:65-72 | `mod_pow(4, 13, 497) == 445` and `mod_pow(5, 3, 13) == 8`. |
| `Math.ModExpReduced` | src/helpers/math.rs:48-53 | For `e > 0` the result is below `md`, and it does not change when the base is first reduced modulo `md`. |
| `Math.RabinMiller` | src/helpers/math.rs:34-40 | The stub accepts every candidate. |
| `Math.IsPrime` | src/helpers/math.rs:28-32 | `is_prime` accepts exactly what `rabin_miller` accepts. |
| `Math.FirstCandidate` | src/helpers/math.rs:16-20 | The first candidate is odd. It is the sample when the sample is odd, and the sample plus 1 when it is even. |
| `Math.GenBigPrimeWith` | src/helpers/math.rs:15-26 | For any acceptance test, the search returns an accepted odd number at or after the first candidate. Every odd candidate before it was rejected, so the result is the first accepted one. |
| `Math.GenBigPrime` | src/helpers/math.rs:15-40 | With the stub test, `gen_big_prime` returns the first candidate itself. The result is odd and at least 1, and it is 1 when the sample is 0. |
| `Generics.GenBasicBigUints` | src/helpers/generics.rs:29-32 | Returns the unsigned constants 0, 1 and 2. |
| `Generics.GenBasicBigInts` | src/helpers/generics.rs:34-37 | Returns the signed constants 0, 1 and 2. |
| `Generics.BigUintFromBigInt` | src/helpers/generics.rs:39-45 | Returns `Err` exactly for a negative input. Otherwise the decimal print-and-parse round trip returns the same value, so its `unwrap` never fails. |
| `Generics.EncodeToPrint` | src/helpers/generics.rs:10-14 | The text has `4 * ceil(k / 3)` characters for `k` hex digits, all from the Base64 alphabet or `=`. It decodes to canonical base-16 digit values (raw 0..15, not ASCII characters) that evaluate back to the number. |
| `Generics.EncodeToPrintUnique` | src/helpers/generics.rs:10-14 | Any text that decodes to canonical base-16 digits of `x` is the text `encode_to_print!` writes, so its contract fixes the text. |
| `Generics.EncodeToPrintLeadingBlock` | src/helpers/generics.rs:18-26 | Every number whose hex digits open with a, 8, e, as the test prime's do, prints starting with "CggO", the first block of the expected string. |
| `Base64.Encode` | src/helpers/generics.rs:12 | `base64::encode` writes `4 * ceil(len / 3)` characters: four per group of three bytes, the last group padded. |
| `Base64.EncodeAlphabet` | src/helpers/generics.rs:12 | Every character of an encoding is from the standard alphabet or the `=` pad. |
| `Base64.DecodeEncode` | src/helpers/generics.rs:12 | Decoding an encoding returns the original bytes. |
| `Base64.EncodeDecode` | src/helpers/generics.rs:12 | Every text that decodes (with zero pad bits, section 3.5 of RFC 4648) is the encoding of what it decodes to, so an encoding is the only text for its bytes. |
| `Radix.ToRadixBe` | src/helpers/generics.rs:12 | `to_radix_be` returns at least one digit, most significant first. Every digit is below the radix, there is no leading zero unless the number is 0, and evaluating the digits in the radix gives the number back. |
| `Radix.ToRadixBeOfDigits` | src/types.rs:263 | Conversely, the digits of the value of a canonical digit sequence are that sequence, so `to_bytes_be` inverts `from_bytes_be` on canonical input. |
| `Radix.BytesRoundTrip` | src/types.rs:263 | `to_bytes_be(from_bytes_be(bs)) == bs` for a non-empty `bs` with no leading zero byte. |
| `Radix.ToBytesBe` | src/types.rs:263 | `to_bytes_be` returns big-endian bytes with no leading zero byte (zero is the single byte 0) whose value is the number. |
| `Radix.ToStrRadix` | src/types.rs:196 | `to_str_radix` writes at least one character and never a leading `0` except for the number 0. |
| `Radix.ToStrRadixUnique` | src/types.rs:196 | The text of `to_str_radix(x, r)` is the only text of lower-case digits without a leading zero that parses to `x`. |
| `Radix.ToStrRadixDigits` | src/types.rs:196 | `to_str_radix(x, 16)` writes at least one character, and every character is a lower-case hex digit. |
| `Radix.StrRadixRoundTrip` | src/types.rs:262 | `from_str_radix(to_str_radix(x, r), r) == x`. |
| `Utf8.AsciiIsValidUtf8` | src/types.rs:264 | ASCII bytes are valid UTF-8, so `from_utf8(...).unwrap()` cannot fail on them. |
| `Types.ThresholdValue` | src/types.rs:67-70 | `value` loses nothing: the threshold built from its value is the threshold itself. |
| `Types.ThresholdFrom` | src/types.rs:39-46 | `Threshold::value(Threshold::from(v)) == v`. |
| `Types.ThresholdDefault` | src/types.rs:48-56 | The default threshold has value 9, not the 64 its doc comment suggests. |
| `Types.ThresholdNew` | src/types.rs:58-65 | `Threshold::value(Threshold::new(&t)) == t`. |
| `Types.ThresholdRoundTrip` | src/types.rs:67-70 | `new` and `from` rebuild any threshold from its `value`, and the two constructors agree. |
| `Types.NewPublicKey` | src/types.rs:164-170 | `PublicKey::new` always returns `Ok`, with `n` and `e` unchanged. |
| `Types.NewPublicKeyFromFiNE` | src/types.rs:171-189 | Returns `Ok` exactly when the gcd component of `egcd(fi_n, e)` is 1. On `Ok`, the fields equal the inputs. |
| `Types.NewSecretKey` | src/types.rs:232-238 | `SecretKey::new` always returns `Ok`, with `n` and `d` unchanged. |
| `Types.NewSecretKeyFromFiND` | src/types.rs:240-258 | Returns `Ok` exactly when the gcd component of `egcd(fi_n, d)` is 1. On `Ok`, the fields equal the inputs. |
| `Types.CheckedConstructorsAgree` | src/types.rs:164-189 | Whenever the coprimality check passes, the checking constructors build the same keys as the plain ones. |
| `Types.Encrypt` | src/types.rs:190-198 | Returns `Err` exactly when the message has a non-ASCII byte. Otherwise the result is lower-case hex text without a leading zero that parses to `mod_pow(from_bytes_be(msg), e, n)`; by `Radix.ToStrRadixUnique` that fixes the text. The message is not compared with `n`. The only panic is a zero modulus with `e > 0`. |
| `Types.Decrypt` | src/types.rs:260-266 | Never returns `Err`. On return, the bytes are canonical, valid UTF-8, and their big-endian value is `mod_pow(c, d, n)` for the parsed ciphertext `c`. It panics on unparsable hex, on a zero modulus with `d > 0`, and on bytes that are not UTF-8. |
| `Types.EncryptDecrypt` | tests/tests.rs:31-40 | When the two powers undo each other on the message number, decrypting the encryption of a non-empty ASCII message without a leading zero byte returns the message. |
| `Types.EmptyMessageComesBackAsNul` | src/types.rs:191-266 | The empty message encrypts to "0", which decrypts to the single byte 0, not to the empty message. |
| `Types.EncryptWrapsModulus` | src/types.rs:191-198 | Two messages whose numbers agree modulo `n` have the same ciphertext, so a message at or above `n` cannot be recovered. |
| `Types.NormalisedExponent` | src/types.rs:99-102 | The normalised `d` is `d0` when `d0 >= 0`. Otherwise it lies in `[0, fi_n)` and is congruent to `d0` modulo `fi_n`. |
| `Types.NormalisedExponentShift` | src/types.rs:100-102 | One `d = d + fi_n` round does not change the normalised value, which is the invariant of the loop. |
| `Types.NormalisedExponentInverts` | src/types.rs:99-103 | If `egcd` returns Bezout coefficients with `fi_n * x + e * y == 1` and `fi_n > 1`, then the normalised `y` is an inverse of `e` modulo `fi_n`. |
| `Types.NewKeyPair` | src/types.rs:84-113 | The primes are the two first candidates. `n = p * q` in both keys, and `fi_n = (p - 1) * (q - 1)`, where the subtractions are safe because the candidates are odd. `e` comes from `find_e`. `d` is the normalised component 2 of `egcd(fi_n, e)`, so `biguint_from_bigint` never fails. `size` and the threshold value are copied. A return is always `Ok`. The call panics exactly when `find_e` fails, and it never ends exactly when `fi_n == 0` and the coefficient is negative. |

## Left out

- `gen_big_num`: the thread RNG sample becomes a parameter. The byte
  lengths asserted in `tests/tests.rs:8-19` are not modelled, because they
  depend on the random draw.
- `Math.GenBigPrimeWith`: requires a ghost witness that some candidate is
  accepted. Without one the source loops forever. With the stub test used
  by `GenBigPrime`, the first candidate is always accepted.
- `egcd` and `find_e`: their bodies are not part of this model. As Dafny
  function types they are assumed total, panic-free and deterministic; a
  panic or non-termination inside them is not modelled. Nothing else is
  assumed about them, so general RSA correctness (`decrypt(encrypt(m)) == m`
  for every `m < n`) is out of reach. `Types.EncryptDecrypt` takes the
  exponent property as a hypothesis. Under this revision's stub,
  `gen_big_prime` may return composites anyway.
- Miller–Rabin and the `4^-threshold` error bound: this revision has no
  Miller–Rabin, and a probability cannot be stated here.
- `Radix.FromStrRadix`: does not accept the leading `+` or the `_` digit
  separators that num_bigint's parser also accepts. No ciphertext produced
  by `encrypt` contains them.
- The full 309-digit test vector of `encode_to_print!`
  (`src/helpers/generics.rs:18-26`) is not evaluated by the verifier.
  `Generics.EncodeToPrintLeadingBlock` proves the first block "CggO" for
  every number whose hex digits open with a, 8, e; that the test prime's
  digits do is not checked.
- `KeyPair::print`, `generics::print`, `get_full_path`, `get_pk_params`,
  `prepare_to_print` and the `From<&str>` impls for `PublicKey` and
  `SecretKey`: these are file I/O or `unimplemented!()`.
- The `Display` impls: formatting only.
- The `Box::leak` in `biguint_from_bigint`: a memory detail. Only the value
  is modelled.
- Timing and side channels.

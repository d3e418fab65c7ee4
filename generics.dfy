/** The helpers of `src/helpers/generics.rs`: the small constants, the
    checked conversion from a signed to an unsigned big integer, and the
    `encode_to_print!` encoding of a number for printing. */
module Generics {
  import opened Outcomes
  import Radix
  import Base64

  /** `gen_basic_biguints`: the unsigned constants zero, one and two. */
  function GenBasicBigUints(): (r: (nat, nat, nat))
    ensures r.0 == 0 && r.1 == 1 && r.2 == 2
  {
    (0, 1, 1 + 1)
  }

  /** `gen_basic_bigints`: the signed constants zero, one and two. */
  function GenBasicBigInts(): (r: (int, int, int))
    ensures r.0 == 0 && r.1 == 1 && r.2 == 2
  {
    (0, 1, 1 + 1)
  }

  /** `biguint_from_bigint`: a negative number is an error; any other is
      printed in decimal and parsed back as an unsigned number, which
      preserves its value, so the `unwrap` of the parse never fails. */
  function BigUintFromBigInt(a: int): (r: Result<nat>)
    ensures r.Err? <==> a < 0
    ensures r.Ok? ==> r.value == a
  {
    if a < 0 then Err("Error converting a negative BigInt to a BigUint")
    else
      var text := Radix.ToStrRadix(a, 10);
      Radix.StrRadixRoundTrip(a, 10);
      Ok(Radix.FromStrRadix(text, 10).value)
  }

  /** `encode_to_print!`: the base-16 digits of the number, most significant
      first, each a raw value 0..15 (not an ASCII hex character), encoded in
      Base64. The text has four characters per three digits, rounded up, and
      decodes back to digits that evaluate to the number. */
  function EncodeToPrint(x: nat): (s: string)
    ensures |s| == 4 * ((|Radix.ToRadixBe(x, 16)| + 2) / 3)
    ensures forall i :: 0 <= i < |s| ==> Base64.IsEncodedChar(s[i])
    ensures Base64.Decode(s).Some?
    ensures Radix.Canonical(Base64.Decode(s).value, 16)
    ensures Radix.FromDigitsBe(Base64.Decode(s).value, 16) == x
  {
    var digits := Radix.ToRadixBe(x, 16);
    Base64.DecodeEncode(digits);
    Base64.EncodeAlphabet(digits);
    Base64.Encode(digits)
  }

  /** The text `encode_to_print!` writes is the only text its contract
      allows: any text that decodes to canonical base-16 digits of `x` is it. */
  lemma EncodeToPrintUnique(x: nat, s: string)
    requires Base64.Decode(s).Some?
    requires Radix.Canonical(Base64.Decode(s).value, 16)
    requires Radix.FromDigitsBe(Base64.Decode(s).value, 16) == x
    ensures s == EncodeToPrint(x)
  {
    Radix.ToRadixBeOfDigits(Base64.Decode(s).value, 16);
    Base64.EncodeDecode(s);
  }

  /** A number whose hex digits open with a, 8, e, as those of the source's
      test prime do, is printed starting with "CggO", the first block of the
      string that test expects. */
  lemma EncodeToPrintLeadingBlock(x: nat)
    requires |Radix.ToRadixBe(x, 16)| >= 3 && Radix.ToRadixBe(x, 16)[..3] == [10, 8, 14]
    ensures EncodeToPrint(x)[..4] == "CggO"
  {
    var ds := Radix.ToRadixBe(x, 16);
    Base64.EncodeFront(ds);
    assert ds[0] == 10 && ds[1] == 8 && ds[2] == 14 by {
      assert ds[..3][0] == ds[0] && ds[..3][1] == ds[1] && ds[..3][2] == ds[2];
    }
    assert Base64.EncodeTriple(10, 8, 14) == "CggO";
  }
}

/** Arbitrary-precision radix conversions as the source uses them from
    num_bigint (`to_radix_be`, `from_bytes_be`, `to_bytes_be`,
    `to_str_radix`, `from_str_radix`), stated by the mathematical meaning
    of a positional digit sequence. */
module Radix {
  import opened Outcomes
  import Math

  /** Value of a most-significant-first digit sequence in base `radix`;
      the empty sequence denotes 0. */
  function FromDigitsBe(ds: seq<u8>, radix: nat): nat
  {
    if ds == [] then 0 else FromDigitsBe(ds[..|ds| - 1], radix) * radix + ds[|ds| - 1] as nat
  }

  /** The shape of every digit sequence `to_radix_be` produces: at least
      one digit, every digit below the radix, no leading zero unless the
      number is zero itself. */
  predicate Canonical(ds: seq<u8>, radix: nat)
  {
    |ds| >= 1 && (forall i :: 0 <= i < |ds| ==> ds[i] as nat < radix) && (ds[0] == 0 ==> |ds| == 1)
  }

  /** `to_radix_be`: the digits of `x`, most significant first; zero is `[0]`. */
  function ToRadixBe(x: nat, radix: nat): (ds: seq<u8>)
    requires 2 <= radix <= 256
    ensures Canonical(ds, radix)
    ensures FromDigitsBe(ds, radix) == x
    decreases x
  {
    if x < radix then [x as u8]
    else
      Math.QuotientPositive(x, radix);
      var high := ToRadixBe(x / radix, radix);
      var low := (x % radix) as u8;
      ToRadixBeStep(x, radix, high, low);
      high + [low]
  }

  /** Appending a digit multiplies the value by the radix and adds the digit. */
  lemma AppendDigit(ds: seq<u8>, d: u8, radix: nat)
    ensures FromDigitsBe(ds + [d], radix) == FromDigitsBe(ds, radix) * radix + d as nat
  {
    assert (ds + [d])[..|ds|] == ds;
  }

  /** A canonical sequence that starts with 0 is the number 0. */
  lemma ZeroLeadingDigit(ds: seq<u8>, radix: nat)
    requires Canonical(ds, radix) && ds[0] == 0
    ensures FromDigitsBe(ds, radix) == 0
  {
    assert ds == [0];
    assert ds[..0] == [];
  }

  /** The recursive case of `ToRadixBe`: the digits of `x / radix` followed by
      the digit `x % radix` are canonical and denote `x`. */
  lemma ToRadixBeStep(x: nat, radix: nat, high: seq<u8>, low: u8)
    requires 2 <= radix <= 256 && x >= radix
    requires Canonical(high, radix) && FromDigitsBe(high, radix) == x / radix
    requires low as nat == x % radix
    ensures Canonical(high + [low], radix) && FromDigitsBe(high + [low], radix) == x
  {
    AppendDigit(high, low, radix);
    if high[0] == 0 {
      ZeroLeadingDigit(high, radix);
    }
    assert (high + [low])[0] == high[0];
  }

  /** A sequence with a non-zero leading digit denotes a positive number. */
  lemma {:induction false} LeadingDigitPositive(ds: seq<u8>, radix: nat)
    requires |ds| >= 1 && ds[0] != 0 && radix >= 1
    ensures FromDigitsBe(ds, radix) >= 1
    decreases |ds|
  {
    var init := ds[..|ds| - 1];
    if |ds| > 1 {
      assert init[0] == ds[0];
      LeadingDigitPositive(init, radix);
      assert FromDigitsBe(init, radix) * radix >= 1;
    }
  }

  /** Converting a canonical digit sequence to a number and back gives the
      same digits: `to_radix_be` is the inverse of digit evaluation. */
  lemma {:induction false} ToRadixBeOfDigits(ds: seq<u8>, radix: nat)
    requires 2 <= radix <= 256 && Canonical(ds, radix)
    ensures ToRadixBe(FromDigitsBe(ds, radix), radix) == ds
    decreases |ds|
  {
    var init, last := ds[..|ds| - 1], ds[|ds| - 1];
    if |ds| == 1 {
      assert init == [];
      assert ds == [last];
    } else {
      assert init[0] == ds[0] && Canonical(init, radix);
      LeadingDigitPositive(init, radix);
      var high := FromDigitsBe(init, radix);
      var x := FromDigitsBe(ds, radix);
      assert x == high * radix + last as nat;
      Math.MultipleBound(high, radix);
      Math.DivModUnique(x, radix, high, last as nat);
      ToRadixBeOfDigits(init, radix);
      assert ToRadixBe(x, radix) == ToRadixBe(high, radix) + [last];
      assert ds == init + [last];
    }
  }

  /** `from_bytes_be`: the bytes as one big-endian number; `[]` is 0. */
  function FromBytesBe(bs: seq<u8>): nat
  {
    FromDigitsBe(bs, 256)
  }

  /** `to_bytes_be`: the big-endian bytes of `x` without leading zero bytes;
      zero is the single byte `[0]`. */
  function ToBytesBe(x: nat): (bs: seq<u8>)
    ensures Canonical(bs, 256) && FromBytesBe(bs) == x
  {
    ToRadixBe(x, 256)
  }

  /** The character num_bigint writes for a digit: `0`-`9`, then lower-case `a`-`z`. */
  function DigitChar(d: nat): (c: char)
    requires d < 36
  {
    if d < 10 then ('0' as int + d) as char else ('a' as int + d - 10) as char
  }

  /** The digit value num_bigint's parser gives a character: either case
      is accepted for the letters; anything else is not a digit. */
  function CharDigit(c: char): Option<nat>
  {
    if '0' <= c <= '9' then Some(c as int - '0' as int)
    else if 'a' <= c <= 'z' then Some(c as int - 'a' as int + 10)
    else if 'A' <= c <= 'Z' then Some(c as int - 'A' as int + 10)
    else None
  }

  /** A character `to_str_radix` may write for the given radix. */
  predicate IsLowerDigit(c: char, radix: nat)
  {
    ('0' <= c <= '9' && (c as int - '0' as int) < radix) || ('a' <= c <= 'z' && (c as int - 'a' as int + 10) < radix)
  }

  /** `to_str_radix`: the lower-case digits of `x` in base `radix`, most
      significant first, without leading zeros; zero is "0". */
  function ToStrRadix(x: nat, radix: nat): (s: string)
    requires 2 <= radix <= 36
    ensures |s| >= 1 && (s[0] == '0' ==> |s| == 1)
  {
    var ds := ToRadixBe(x, radix);
    var s := seq(|ds|, i requires 0 <= i < |ds| => DigitChar(ds[i] as nat));
    assert s[0] == DigitChar(ds[0] as nat);
    s
  }

  /** Digit values of every character of `s`, or None as soon as one is
      not a digit of the radix. */
  function ParseDigits(s: string, radix: nat): Option<seq<u8>>
    requires 2 <= radix <= 36
    decreases |s|
  {
    if s == [] then Some([])
    else match CharDigit(s[0])
      case None => None
      case Some(d) =>
        if d >= radix then None
        else match ParseDigits(s[1..], radix)
          case None => None
          case Some(rest) => Some([d as u8] + rest)
  }

  /** `from_str_radix`: the value of a non-empty string of digits of the
      radix; the empty string and any other character are errors. */
  function FromStrRadix(s: string, radix: nat): Option<nat>
    requires 2 <= radix <= 36
  {
    if s == [] then None
    else match ParseDigits(s, radix)
      case None => None
      case Some(ds) => Some(FromDigitsBe(ds, radix))
  }

  /** Parsing the characters written for digits below the radix gives the digits back. */
  lemma {:induction false} ParseDigitChars(ds: seq<u8>, radix: nat)
    requires 2 <= radix <= 36
    requires forall i :: 0 <= i < |ds| ==> ds[i] as nat < radix
    ensures ParseDigits(seq(|ds|, i requires 0 <= i < |ds| => DigitChar(ds[i] as nat)), radix) == Some(ds)
    decreases |ds|
  {
    var s := seq(|ds|, i requires 0 <= i < |ds| => DigitChar(ds[i] as nat));
    if ds != [] {
      var tail := ds[1..];
      var tailChars := seq(|tail|, i requires 0 <= i < |tail| => DigitChar(tail[i] as nat));
      assert s[1..] == tailChars;
      ParseDigitChars(tail, radix);
      assert CharDigit(s[0]) == Some(ds[0] as nat);
      assert ds == [ds[0]] + tail;
    }
  }

  /** `to_str_radix` writes only lower-case digits of the radix, at least one. */
  lemma ToStrRadixDigits(x: nat, radix: nat)
    requires 2 <= radix <= 36
    ensures |ToStrRadix(x, radix)| >= 1
    ensures forall i :: 0 <= i < |ToStrRadix(x, radix)| ==> IsLowerDigit(ToStrRadix(x, radix)[i], radix)
  {
    var ds := ToRadixBe(x, radix);
    var s := ToStrRadix(x, radix);
    forall i | 0 <= i < |s| ensures IsLowerDigit(s[i], radix) {
      assert s[i] == DigitChar(ds[i] as nat);
    }
  }

  /** Round trip of the text form: `from_str_radix(to_str_radix(x, r), r) == x`. */
  lemma StrRadixRoundTrip(x: nat, radix: nat)
    requires 2 <= radix <= 36
    ensures FromStrRadix(ToStrRadix(x, radix), radix) == Some(x)
  {
    ParseDigitChars(ToRadixBe(x, radix), radix);
  }

  /** Parsing a text of lower-case digits gives one digit per character,
      each written back as that character. */
  lemma {:induction false} ParseLowerDigits(t: string, radix: nat, ds: seq<u8>)
    requires 2 <= radix <= 36
    requires forall i :: 0 <= i < |t| ==> IsLowerDigit(t[i], radix)
    requires ParseDigits(t, radix) == Some(ds)
    ensures |ds| == |t|
    ensures forall i :: 0 <= i < |t| ==> ds[i] as nat < radix && DigitChar(ds[i] as nat) == t[i]
    decreases |t|
  {
    if t != [] {
      var d := CharDigit(t[0]).value;
      var rest := ParseDigits(t[1..], radix).value;
      assert ds == [d as u8] + rest;
      ParseLowerDigits(t[1..], radix, rest);
      forall i | 0 <= i < |t| ensures ds[i] as nat < radix && DigitChar(ds[i] as nat) == t[i] {
        if i > 0 {
          assert ds[i] == rest[i - 1] && t[i] == t[1..][i - 1];
        }
      }
    }
  }

  /** `to_str_radix` writes the only text of lower-case digits without a
      leading zero that parses to `x`. */
  lemma ToStrRadixUnique(x: nat, radix: nat, t: string)
    requires 2 <= radix <= 36
    requires |t| >= 1 && (t[0] == '0' ==> |t| == 1)
    requires forall i :: 0 <= i < |t| ==> IsLowerDigit(t[i], radix)
    requires FromStrRadix(t, radix) == Some(x)
    ensures t == ToStrRadix(x, radix)
  {
    var ds := ParseDigits(t, radix).value;
    ParseLowerDigits(t, radix, ds);
    assert Canonical(ds, radix);
    ToRadixBeOfDigits(ds, radix);
    var s := ToStrRadix(x, radix);
    forall i | 0 <= i < |t| ensures s[i] == t[i] {
      assert s[i] == DigitChar(ds[i] as nat);
    }
  }

  /** Round trip of the byte form, in the direction that holds:
      `to_bytes_be(from_bytes_be(bs)) == bs` when `bs` is non-empty and has
      no leading zero byte (or is the single byte 0). */
  lemma BytesRoundTrip(bs: seq<u8>)
    requires Canonical(bs, 256)
    ensures ToBytesBe(FromBytesBe(bs)) == bs
  {
    ToRadixBeOfDigits(bs, 256);
  }
}

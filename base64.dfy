/** Base64 with the standard alphabet and `=` padding, section 4 of
    RFC 4648, as the `base64` crate's `encode` produces it. */
module Base64 {
  import opened Outcomes

  /** The character for a 6-bit value: A-Z, a-z, 0-9, `+`, `/`. */
  function Sextet(k: nat): (c: char)
    requires k < 64
  {
    if k < 26 then ('A' as int + k) as char
    else if k < 52 then ('a' as int + k - 26) as char
    else if k < 62 then ('0' as int + k - 52) as char
    else if k == 62 then '+'
    else '/'
  }

  /** The 6-bit value of an alphabet character; None for `=` and anything else. */
  function SextetValue(c: char): (v: Option<nat>)
    ensures v.Some? ==> v.value < 64
  {
    if 'A' <= c <= 'Z' then Some(c as int - 'A' as int)
    else if 'a' <= c <= 'z' then Some(c as int - 'a' as int + 26)
    else if '0' <= c <= '9' then Some(c as int - '0' as int + 52)
    else if c == '+' then Some(62)
    else if c == '/' then Some(63)
    else None
  }

  /** A character of the encoded text: an alphabet character or the pad. */
  predicate IsEncodedChar(c: char)
  {
    SextetValue(c).Some? || c == '='
  }

  /** Four characters for three bytes. */
  function EncodeTriple(b0: u8, b1: u8, b2: u8): seq<char>
  {
    [Sextet(b0 as nat / 4),
     Sextet((b0 as nat % 4) * 16 + b1 as nat / 16),
     Sextet((b1 as nat % 16) * 4 + b2 as nat / 64),
     Sextet(b2 as nat % 64)]
  }

  /** `base64::encode`: every three bytes become four characters; a final
      group of one or two bytes is padded with `=` to four characters. */
  function Encode(bs: seq<u8>): (s: string)
    ensures |s| == 4 * ((|bs| + 2) / 3)
    decreases |bs|
  {
    if |bs| == 0 then []
    else if |bs| == 1 then
      [Sextet(bs[0] as nat / 4), Sextet((bs[0] as nat % 4) * 16), '=', '=']
    else if |bs| == 2 then
      [Sextet(bs[0] as nat / 4),
       Sextet((bs[0] as nat % 4) * 16 + bs[1] as nat / 16),
       Sextet((bs[1] as nat % 16) * 4),
       '=']
    else
      EncodeTriple(bs[0], bs[1], bs[2]) + Encode(bs[3..])
  }

  /** Every character of an encoding is from the alphabet or the pad. */
  lemma {:induction false} EncodeAlphabet(bs: seq<u8>)
    ensures forall i :: 0 <= i < |Encode(bs)| ==> IsEncodedChar(Encode(bs)[i])
    decreases |bs|
  {
    if |bs| >= 3 {
      EncodeAlphabet(bs[3..]);
      var head, tail := EncodeTriple(bs[0], bs[1], bs[2]), Encode(bs[3..]);
      assert Encode(bs) == head + tail;
      forall i | 0 <= i < |Encode(bs)| ensures IsEncodedChar(Encode(bs)[i]) {
        if i >= 4 {
          assert Encode(bs)[i] == tail[i - 4];
        }
      }
    }
  }

  /** Decoding by the same standard: four characters give three bytes, a
      final group with one or two `=` gives two or one byte; any other
      character, a short group or a pad before the last group is an error,
      and so are non-zero pad bits in the last character before the `=`
      (section 3.5 of RFC 4648), which keeps every byte sequence to one text. */
  function Decode(s: string): Option<seq<u8>>
    decreases |s|
  {
    if |s| == 0 then Some([])
    else if |s| < 4 then None
    else
      var v0, v1, v2, v3 := SextetValue(s[0]), SextetValue(s[1]), SextetValue(s[2]), SextetValue(s[3]);
      if v0.None? || v1.None? then None
      else
        var b0 := (v0.value * 4 + v1.value / 16) as u8;
        if |s| == 4 && s[2] == '=' && s[3] == '=' then
          if v1.value % 16 != 0 then None else Some([b0])
        else if v2.None? then None
        else
          var b1 := ((v1.value % 16) * 16 + v2.value / 4) as u8;
          if |s| == 4 && s[3] == '=' then
            if v2.value % 4 != 0 then None else Some([b0, b1])
          else if v3.None? then None
          else
            var b2 := ((v2.value % 4) * 64 + v3.value) as u8;
            match Decode(s[4..])
            case None => None
            case Some(rest) => Some([b0, b1, b2] + rest)
  }

  /** The alphabet is a bijection between 0..63 and its 64 characters. */
  lemma SextetRoundTrip(k: nat)
    requires k < 64
    ensures SextetValue(Sextet(k)) == Some(k)
  {
  }

  /** Bit-level reassembly of one group: the sextets written for three bytes
      give the three bytes back. */
  lemma TripleBits(b0: nat, b1: nat, b2: nat)
    requires b0 < 256 && b1 < 256 && b2 < 256
    ensures (b0 / 4) * 4 + ((b0 % 4) * 16 + b1 / 16) / 16 == b0
    ensures (((b0 % 4) * 16 + b1 / 16) % 16) * 16 + ((b1 % 16) * 4 + b2 / 64) / 4 == b1
    ensures (((b1 % 16) * 4 + b2 / 64) % 4) * 64 + b2 % 64 == b2
  {
  }

  /** The final group of one byte decodes back to that byte. */
  lemma DecodeLastOne(b0: u8)
    ensures Decode(Encode([b0])) == Some([b0])
  {
    var x := b0 as nat;
    SextetRoundTrip(x / 4);
    SextetRoundTrip((x % 4) * 16);
    TripleBits(x, 0, 0);
  }

  /** The final group of two bytes decodes back to those bytes. */
  lemma DecodeLastTwo(b0: u8, b1: u8)
    ensures Decode(Encode([b0, b1])) == Some([b0, b1])
  {
    var x, y := b0 as nat, b1 as nat;
    var s := Encode([b0, b1]);
    SextetRoundTrip(x / 4);
    SextetRoundTrip((x % 4) * 16 + y / 16);
    SextetRoundTrip((y % 16) * 4);
    TripleBits(x, y, 0);
    assert SextetValue(s[2]).Some?;
    assert s[2] != '=';
  }

  /** A full group in front decodes to its three bytes followed by the
      decoding of the rest. */
  lemma DecodeGroup(b0: u8, b1: u8, b2: u8, rest: string, decoded: seq<u8>)
    requires Decode(rest) == Some(decoded)
    ensures Decode(EncodeTriple(b0, b1, b2) + rest) == Some([b0, b1, b2] + decoded)
  {
    var x, y, z := b0 as nat, b1 as nat, b2 as nat;
    var s := EncodeTriple(b0, b1, b2) + rest;
    SextetRoundTrip(x / 4);
    SextetRoundTrip((x % 4) * 16 + y / 16);
    SextetRoundTrip((y % 16) * 4 + z / 64);
    SextetRoundTrip(z % 64);
    TripleBits(x, y, z);
    assert s[2] != '=' && s[3] != '=';
    assert s[4..] == rest;
  }

  /** Three or more bytes encode as their first group followed by the rest. */
  lemma EncodeFront(bs: seq<u8>)
    requires |bs| >= 3
    ensures Encode(bs) == EncodeTriple(bs[0], bs[1], bs[2]) + Encode(bs[3..])
  {
  }

  /** Three or more bytes are their first three followed by the rest. */
  lemma SplitFront(bs: seq<u8>)
    requires |bs| >= 3
    ensures bs == [bs[0], bs[1], bs[2]] + bs[3..]
  {
  }

  /** A full group in front of an encoding that decodes correctly. */
  lemma DecodeEncodeGroup(bs: seq<u8>)
    requires |bs| >= 3 && Decode(Encode(bs[3..])) == Some(bs[3..])
    ensures Decode(Encode(bs)) == Some(bs)
  {
    EncodeFront(bs);
    DecodeGroup(bs[0], bs[1], bs[2], Encode(bs[3..]), bs[3..]);
    SplitFront(bs);
  }

  /** Every alphabet character is the one written for its value. */
  lemma SextetValueRoundTrip(c: char)
    requires SextetValue(c).Some?
    ensures Sextet(SextetValue(c).value) == c
  {
  }

  /** Bit-level splitting of one group: the bytes read from four sextets
      give the four sextets back, and so do the bytes of a final group
      whose pad bits are zero. */
  lemma SextetBits(v0: nat, v1: nat, v2: nat, v3: nat)
    requires v0 < 64 && v1 < 64 && v2 < 64 && v3 < 64
    ensures var b0, b1, b2 := v0 * 4 + v1 / 16, (v1 % 16) * 16 + v2 / 4, (v2 % 4) * 64 + v3;
            b0 < 256 && b1 < 256 && b2 < 256 &&
            b0 / 4 == v0 && (b0 % 4) * 16 + b1 / 16 == v1 &&
            (b1 % 16) * 4 + b2 / 64 == v2 && b2 % 64 == v3 &&
            (v1 % 16 == 0 ==> (b0 % 4) * 16 == v1) &&
            (v2 % 4 == 0 ==> (b1 % 16) * 4 == v2)
  {
  }

  /** Decoding an encoding gives the bytes back. */
  lemma {:induction false} DecodeEncode(bs: seq<u8>)
    ensures Decode(Encode(bs)) == Some(bs)
    decreases |bs|
  {
    if |bs| == 1 {
      DecodeLastOne(bs[0]);
      assert bs == [bs[0]];
    } else if |bs| == 2 {
      DecodeLastTwo(bs[0], bs[1]);
      assert bs == [bs[0], bs[1]];
    } else if |bs| >= 3 {
      DecodeEncode(bs[3..]);
      DecodeEncodeGroup(bs);
    }
  }

  /** The characters of a final one-byte group with zero pad bits are those
      written for the byte they decode to. */
  lemma SextetsOfLastOne(c0: char, c1: char)
    requires SextetValue(c0).Some? && SextetValue(c1).Some? && SextetValue(c1).value % 16 == 0
    ensures var v0, v1 := SextetValue(c0).value, SextetValue(c1).value;
            Encode([(v0 * 4 + v1 / 16) as u8]) == [c0, c1, '=', '=']
  {
    var v0, v1 := SextetValue(c0).value, SextetValue(c1).value;
    SextetBits(v0, v1, 0, 0);
    SextetValueRoundTrip(c0);
    SextetValueRoundTrip(c1);
  }

  /** The characters of a final two-byte group with zero pad bits are those
      written for the bytes they decode to. */
  lemma SextetsOfLastTwo(c0: char, c1: char, c2: char)
    requires SextetValue(c0).Some? && SextetValue(c1).Some? && SextetValue(c2).Some?
    requires SextetValue(c2).value % 4 == 0
    ensures var v0, v1, v2 := SextetValue(c0).value, SextetValue(c1).value, SextetValue(c2).value;
            Encode([(v0 * 4 + v1 / 16) as u8, ((v1 % 16) * 16 + v2 / 4) as u8]) == [c0, c1, c2, '=']
  {
    var v0, v1, v2 := SextetValue(c0).value, SextetValue(c1).value, SextetValue(c2).value;
    SextetBits(v0, v1, v2, 0);
    SextetValueRoundTrip(c0);
    SextetValueRoundTrip(c1);
    SextetValueRoundTrip(c2);
  }

  /** A final group of one byte is the only text that decodes to it. */
  lemma EncodeDecodeLastOne(s: string)
    requires |s| == 4 && s[2] == '=' && s[3] == '=' && Decode(s).Some?
    ensures Encode(Decode(s).value) == s
  {
    assert SextetValue(s[0]).Some? && SextetValue(s[1]).Some? && SextetValue(s[1]).value % 16 == 0;
    SextetsOfLastOne(s[0], s[1]);
    assert s == [s[0], s[1], '=', '='];
  }

  /** A final group of two bytes is the only text that decodes to them. */
  lemma EncodeDecodeLastTwo(s: string)
    requires |s| == 4 && s[2] != '=' && s[3] == '=' && Decode(s).Some?
    ensures Encode(Decode(s).value) == s
  {
    assert SextetValue(s[0]).Some? && SextetValue(s[1]).Some? && SextetValue(s[2]).Some?;
    assert SextetValue(s[2]).value % 4 == 0;
    SextetsOfLastTwo(s[0], s[1], s[2]);
    assert s == [s[0], s[1], s[2], '='];
  }

  /** The four characters of a full group are those written for the three
      bytes they decode to. */
  lemma SextetsOfGroup(c0: char, c1: char, c2: char, c3: char)
    requires SextetValue(c0).Some? && SextetValue(c1).Some? && SextetValue(c2).Some? && SextetValue(c3).Some?
    ensures var v0, v1, v2, v3 := SextetValue(c0).value, SextetValue(c1).value, SextetValue(c2).value, SextetValue(c3).value;
            EncodeTriple((v0 * 4 + v1 / 16) as u8, ((v1 % 16) * 16 + v2 / 4) as u8, ((v2 % 4) * 64 + v3) as u8) == [c0, c1, c2, c3]
  {
    var v0, v1, v2, v3 := SextetValue(c0).value, SextetValue(c1).value, SextetValue(c2).value, SextetValue(c3).value;
    SextetBits(v0, v1, v2, v3);
    SextetValueRoundTrip(c0);
    SextetValueRoundTrip(c1);
    SextetValueRoundTrip(c2);
    SextetValueRoundTrip(c3);
  }

  /** A text that decodes and opens with a full group: four alphabet
      characters, read as three bytes, followed by a text that decodes. */
  lemma DecodeFullGroup(s: string)
    requires |s| >= 4 && s[3] != '=' && Decode(s).Some?
    ensures SextetValue(s[0]).Some? && SextetValue(s[1]).Some? && SextetValue(s[2]).Some? && SextetValue(s[3]).Some?
    ensures Decode(s[4..]).Some?
    ensures var v0, v1, v2, v3 := SextetValue(s[0]).value, SextetValue(s[1]).value, SextetValue(s[2]).value, SextetValue(s[3]).value;
            Decode(s) == Some([(v0 * 4 + v1 / 16) as u8, ((v1 % 16) * 16 + v2 / 4) as u8, ((v2 % 4) * 64 + v3) as u8] + Decode(s[4..]).value)
  {
  }

  /** A text that decodes and opens with a full group: its first three bytes
      are encoded by its first four characters, and the rest of the bytes
      are what the rest of the text decodes to. */
  lemma DecodeFront(s: string)
    requires |s| >= 4 && s[3] != '=' && Decode(s).Some?
    ensures Decode(s[4..]).Some?
    ensures var bs := Decode(s).value;
            |bs| >= 3 && bs[3..] == Decode(s[4..]).value && EncodeTriple(bs[0], bs[1], bs[2]) == s[..4]
  {
    var bs := Decode(s).value;
    assert |bs| >= 3 && bs[3..] == Decode(s[4..]).value by {
      DecodeFullGroup(s);
    }
    assert EncodeTriple(bs[0], bs[1], bs[2]) == [s[0], s[1], s[2], s[3]] by {
      DecodeFullGroup(s);
      SextetsOfGroup(s[0], s[1], s[2], s[3]);
    }
    assert s[..4] == [s[0], s[1], s[2], s[3]];
  }

  /** A full group in front of a text that is the encoding of what it decodes to. */
  lemma EncodeDecodeGroup(s: string)
    requires |s| >= 4 && s[3] != '=' && Decode(s).Some?
    requires Decode(s[4..]).Some? && Encode(Decode(s[4..]).value) == s[4..]
    ensures Encode(Decode(s).value) == s
  {
    var bs := Decode(s).value;
    DecodeFront(s);
    EncodeFront(bs);
    assert s == s[..4] + s[4..];
  }

  /** Every text that decodes is the encoding of what it decodes to, so
      `Decode` is injective and an encoding is the only text for its bytes. */
  lemma {:induction false} EncodeDecode(s: string)
    requires Decode(s).Some?
    ensures Encode(Decode(s).value) == s
    decreases |s|
  {
    if |s| == 0 {
    } else if s[2] == '=' && s[3] == '=' {
      EncodeDecodeLastOne(s);
    } else if s[3] == '=' {
      EncodeDecodeLastTwo(s);
    } else {
      EncodeDecode(s[4..]);
      EncodeDecodeGroup(s);
    }
  }
}

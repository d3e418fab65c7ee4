/** The byte-level checks the source relies on from Rust's standard
    library: `str::is_ascii` and the validation done by `str::from_utf8`,
    which accepts exactly the well-formed UTF-8 of section 4 of RFC 3629. */
module Utf8 {
  import opened Outcomes

  /** `is_ascii`: every byte is below 0x80. */
  predicate IsAscii(bs: seq<u8>)
  {
    forall i :: 0 <= i < |bs| ==> bs[i] < 0x80
  }

  predicate InRange(b: u8, lo: int, hi: int)
  {
    lo <= b as int <= hi
  }

  /** A continuation byte, 0x80-0xBF. */
  predicate Tail(b: u8)
  {
    InRange(b, 0x80, 0xBF)
  }

  /** Length of the well-formed character at the start of `bs` according to
      the UTF8-char rule of section 4 of RFC 3629, or 0 when none starts there
      (a stray continuation byte, an overlong form, a surrogate, a code point
      above U+10FFFF, or a truncated sequence). */
  function LeadingCharLength(bs: seq<u8>): (k: nat)
    ensures k <= |bs| && (k == 0 || |bs| > 0)
  {
    if |bs| == 0 then 0
    else
      var b := bs[0];
      if b < 0x80 then 1
      else if InRange(b, 0xC2, 0xDF) then
        (if |bs| >= 2 && Tail(bs[1]) then 2 else 0)
      else if b == 0xE0 then
        (if |bs| >= 3 && InRange(bs[1], 0xA0, 0xBF) && Tail(bs[2]) then 3 else 0)
      else if InRange(b, 0xE1, 0xEC) || InRange(b, 0xEE, 0xEF) then
        (if |bs| >= 3 && Tail(bs[1]) && Tail(bs[2]) then 3 else 0)
      else if b == 0xED then
        (if |bs| >= 3 && InRange(bs[1], 0x80, 0x9F) && Tail(bs[2]) then 3 else 0)
      else if b == 0xF0 then
        (if |bs| >= 4 && InRange(bs[1], 0x90, 0xBF) && Tail(bs[2]) && Tail(bs[3]) then 4 else 0)
      else if InRange(b, 0xF1, 0xF3) then
        (if |bs| >= 4 && Tail(bs[1]) && Tail(bs[2]) && Tail(bs[3]) then 4 else 0)
      else if b == 0xF4 then
        (if |bs| >= 4 && InRange(bs[1], 0x80, 0x8F) && Tail(bs[2]) && Tail(bs[3]) then 4 else 0)
      else 0
  }

  /** What `from_utf8` accepts: the bytes split into well-formed characters. */
  predicate ValidUtf8(bs: seq<u8>)
    decreases |bs|
  {
    bs == [] || (LeadingCharLength(bs) > 0 && ValidUtf8(bs[LeadingCharLength(bs)..]))
  }

  /** Every ASCII byte sequence is valid UTF-8, one byte per character. */
  lemma {:induction false} AsciiIsValidUtf8(bs: seq<u8>)
    requires IsAscii(bs)
    ensures ValidUtf8(bs)
    decreases |bs|
  {
    if bs != [] {
      assert LeadingCharLength(bs) == 1;
      AsciiIsValidUtf8(bs[1..]);
    }
  }
}

/** Fixed-width integers of the formatter and their lowercase hexadecimal
    rendering (the `{:02x}` and `{:08x}` format specifiers), together with
    the parsers that read the rendering back. */
module Hex {

  /** An unsigned 8-bit value (`u8`). */
  type byte = b: int | 0 <= b < 0x100

  /** An unsigned 32-bit value (`u32`). */
  type u32 = x: int | 0 <= x < 0x1_0000_0000

  const U32_MODULUS: nat := 0x1_0000_0000

  datatype Option<+T> = None | Some(value: T)

  predicate IsLowerHexDigit(c: char) {
    '0' <= c <= '9' || 'a' <= c <= 'f'
  }

  /** The value of one lowercase hexadecimal digit. */
  function DigitValue(c: char): (d: nat)
    requires IsLowerHexDigit(c)
    ensures d < 16
  {
    if c <= '9' then c as int - '0' as int else c as int - 'a' as int + 10
  }

  /** The lowercase digit that `{:x}` writes for `d`. */
  function HexDigit(d: nat): (c: char)
    requires d < 16
    ensures IsLowerHexDigit(c) && DigitValue(c) == d
  {
    if d < 10 then ('0' as int + d) as char else ('a' as int + d - 10) as char
  }

  lemma HexDigitOfValue(c: char)
    requires IsLowerHexDigit(c)
    ensures HexDigit(DigitValue(c)) == c
  {
  }

  /** Reads two lowercase hexadecimal digits as one byte. */
  function ParseHexByte(hi: char, lo: char): (r: Option<byte>)
    ensures r.Some? <==> IsLowerHexDigit(hi) && IsLowerHexDigit(lo)
  {
    if IsLowerHexDigit(hi) && IsLowerHexDigit(lo) then Some(DigitValue(hi) * 16 + DigitValue(lo)) else None
  }

  /** `{:02x}` of one byte: always two lowercase digits, and they read back as the byte. */
  function HexByte(b: byte): (s: string)
    ensures |s| == 2
    ensures IsLowerHexDigit(s[0]) && IsLowerHexDigit(s[1])
    ensures ParseHexByte(s[0], s[1]) == Some(b)
  {
    [HexDigit(b / 16), HexDigit(b % 16)]
  }

  /** Only the canonical rendering parses: a pair that reads as `b` is `HexByte(b)`. */
  lemma ParseHexByteCanonical(hi: char, lo: char)
    requires ParseHexByte(hi, lo).Some?
    ensures HexByte(ParseHexByte(hi, lo).value) == [hi, lo]
  {
    var h, l := DigitValue(hi), DigitValue(lo);
    var b: byte := h * 16 + l;
    assert b / 16 == h && b % 16 == l;
    HexDigitOfValue(hi);
    HexDigitOfValue(lo);
  }

  function Pow16(k: nat): nat {
    if k == 0 then 1 else 16 * Pow16(k - 1)
  }

  /** The value of a string of lowercase hexadecimal digits, most significant first. */
  function HexValue(s: string): nat
    requires forall i :: 0 <= i < |s| ==> IsLowerHexDigit(s[i])
  {
    if |s| == 0 then 0 else 16 * HexValue(s[..|s| - 1]) + DigitValue(s[|s| - 1])
  }

  /** `v` zero-padded to `width` lowercase digits, for a `v` that fits in that width. */
  function HexDigits(v: nat, width: nat): (s: string)
    requires v < Pow16(width)
    ensures |s| == width
    ensures forall i :: 0 <= i < width ==> IsLowerHexDigit(s[i])
    ensures HexValue(s) == v
  {
    if width == 0 then ""
    else
      assert v / 16 < Pow16(width - 1);
      var s := HexDigits(v / 16, width - 1) + [HexDigit(v % 16)];
      assert s[..width - 1] == HexDigits(v / 16, width - 1);
      s
  }

  /** `{:08x}` of a `u32`: exactly eight lowercase digits (a `u32` never needs more),
      reading back as the offset. */
  function HexOffset(x: u32): (s: string)
    ensures |s| == 8
    ensures forall i :: 0 <= i < 8 ==> IsLowerHexDigit(s[i])
    ensures HexValue(s) == x
  {
    assert Pow16(8) == U32_MODULUS;
    HexDigits(x, 8)
  }
}

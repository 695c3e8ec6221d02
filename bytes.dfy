/** Bytes and Go's `encoding/hex` lower-case encoding. */
module Bytes {

  newtype byte = x: int | 0 <= x < 256

  const HexDigits: string := "0123456789abcdef"

  predicate IsLowerHex(s: string) {
    forall i :: 0 <= i < |s| ==> s[i] in HexDigits
  }

  /** The two hex characters of one byte, high nibble first. */
  function HexByte(b: byte): (r: string)
    ensures |r| == 2 && IsLowerHex(r)
  {
    [HexDigits[b as int / 16], HexDigits[b as int % 16]]
  }

  /** hex.EncodeToString: two lower-case hex characters per byte, in order. */
  function HexEncode(bs: seq<byte>): (r: string)
    ensures |r| == 2 * |bs|
    ensures IsLowerHex(r)
    ensures forall i :: 0 <= i < |bs| ==> r[2 * i..2 * i + 2] == HexByte(bs[i])
  {
    if bs == [] then ""
    else
      var rest := HexEncode(bs[1..]);
      assert forall i :: 1 <= i < |bs| ==> (HexByte(bs[0]) + rest)[2 * i..2 * i + 2] == rest[2 * (i - 1)..2 * (i - 1) + 2];
      HexByte(bs[0]) + rest
  }

  /** The value of a hex digit: the inverse of indexing HexDigits. */
  function HexValue(c: char): (v: int)
    requires c in HexDigits
    ensures 0 <= v < 16 && HexDigits[v] == c
  {
    if '0' <= c <= '9' then c as int - '0' as int else c as int - 'a' as int + 10
  }

  /** Decoding the encoding of a byte gives the byte back. */
  lemma HexByteRoundTrip(b: byte)
    ensures HexValue(HexByte(b)[0]) * 16 + HexValue(HexByte(b)[1]) == b as int
  {
    var hi, lo := b as int / 16, b as int % 16;
    assert HexValue(HexDigits[hi]) == hi by { HexDigitsDistinct(HexValue(HexDigits[hi]), hi); }
    assert HexValue(HexDigits[lo]) == lo by { HexDigitsDistinct(HexValue(HexDigits[lo]), lo); }
  }

  lemma HexDigitsDistinct(i: int, j: int)
    requires 0 <= i < 16 && 0 <= j < 16 && HexDigits[i] == HexDigits[j]
    ensures i == j
  {
  }
}

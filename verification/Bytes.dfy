/** Bytes and their hexadecimal digits. */
module Bytes {

  type Byte = n: nat | n < 256

  /** A lower-case hexadecimal digit. */
  function HexDigit(n: nat): char
    requires n < 16
  {
    "0123456789abcdef"[n]
  }

  /** The value of a lower-case hexadecimal digit. */
  function LowerHexValue(c: char): int {
    if '0' <= c <= '9' then c as int - '0' as int
    else if 'a' <= c <= 'f' then c as int - 'a' as int + 10
    else -1
  }

  /** Hexadecimal text, lower-case, two digits a byte, the high one first. */
  ghost predicate SpellsHex(text: string, bytes: seq<Byte>) {
    && |text| == 2 * |bytes|
    && forall i :: 0 <= i < |bytes| ==> ByteAt(text, 2 * i, bytes[i])
  }

  predicate ByteAt(text: string, i: nat, b: Byte)
    requires i + 1 < |text|
  {
    && LowerHexValue(text[i]) >= 0 && LowerHexValue(text[i + 1]) >= 0
    && b == 16 * LowerHexValue(text[i]) + LowerHexValue(text[i + 1])
  }

  lemma DigitReads(n: nat)
    requires n < 16
    ensures LowerHexValue(HexDigit(n)) == n
  {
  }
}

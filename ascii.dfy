/**
 * Bytes and the ASCII encoding that the request's string overloads use
 * (`Encoding.ASCII.GetBytes`): every character below U+0080 becomes the byte
 * with the same value, every other character becomes the replacement byte '?'.
 */
module Ascii {
  newtype byte = x: int | 0 <= x < 0x100
  type Bytes = seq<byte>

  /** The byte the encoder's replacement fallback writes for a character it cannot encode. */
  const Replacement: byte := 0x3F

  predicate IsAsciiChar(c: char) {
    c as int < 0x80
  }

  predicate IsAscii(s: string) {
    forall i :: 0 <= i < |s| ==> IsAsciiChar(s[i])
  }

  function EncodeChar(c: char): byte {
    if IsAsciiChar(c) then c as int as byte else Replacement
  }

  /** `Encoding.ASCII.GetBytes(s)`: one byte per character, in order. */
  function GetBytes(s: string): (r: Bytes)
    ensures |r| == |s|
    ensures forall i :: 0 <= i < |r| ==> r[i] < 0x80
    ensures forall i :: 0 <= i < |s| && IsAsciiChar(s[i]) ==> r[i] as int == s[i] as int
    ensures forall i :: 0 <= i < |s| && !IsAsciiChar(s[i]) ==> r[i] == Replacement
    ensures IsAscii(s) ==> GetString(r) == s
  {
    seq(|s|, i requires 0 <= i < |s| => EncodeChar(s[i]))
  }

  /** Decoding: each byte read back as the character with that value. */
  function GetString(b: Bytes): (s: string)
    ensures |s| == |b|
  {
    seq(|b|, i requires 0 <= i < |b| => b[i] as int as char)
  }

  /** Two ASCII strings encode to the same bytes only if they are equal. */
  lemma GetBytesInjective(s: string, t: string)
    requires IsAscii(s) && IsAscii(t)
    requires GetBytes(s) == GetBytes(t)
    ensures s == t
  {
  }
}

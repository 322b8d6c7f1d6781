/** Bytes, and the "binary strings" (one character per byte) that `btoa`, `atob`,
    `String.fromCharCode` and `charCodeAt` trade in. */
module Bytes {

  type uint8 = x: int | 0 <= x < 0x100

  /** A string every character of which has a code below 256. */
  predicate IsBinaryString(s: string) {
    forall i :: 0 <= i < |s| ==> (s[i] as int) < 0x100
  }

  /** The character with code `b` (`String.fromCharCode(b)`). */
  function ByteChar(b: uint8): char {
    b as char
  }

  /** One character per byte: the string the source accumulates with `String.fromCharCode`. */
  function ToBinaryString(bytes: seq<uint8>): (s: string)
    ensures |s| == |bytes| && IsBinaryString(s)
    ensures forall i :: 0 <= i < |bytes| ==> s[i] as int == bytes[i]
  {
    seq(|bytes|, i requires 0 <= i < |bytes| => ByteChar(bytes[i]))
  }

  /** The byte values of a binary string (`charCodeAt` for every index). */
  function FromBinaryString(s: string): (bytes: seq<uint8>)
    requires IsBinaryString(s)
    ensures |bytes| == |s|
    ensures forall i :: 0 <= i < |s| ==> bytes[i] == s[i] as int
  {
    seq(|s|, i requires 0 <= i < |s| => s[i] as int as uint8)
  }

  lemma BinaryStringRoundTrip(bytes: seq<uint8>)
    ensures FromBinaryString(ToBinaryString(bytes)) == bytes
  {
  }
}

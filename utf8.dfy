/** UTF-8 as `TextEncoder` and `TextDecoder` implement it (RFC 3629, with the decoder of the
    WHATWG Encoding standard: replacement of ill-formed input by U+FFFD and a leading
    byte-order mark dropped). A Dafny `char` is a Unicode scalar value, so a `string` is a
    well-formed Unicode string. */
module Utf8 {
  import opened Bytes

  const Replacement: char := '\U{FFFD}'
  const ByteOrderMark: char := '\U{FEFF}'

  /** The UTF-8 encoding of one scalar value (RFC 3629, section 3). */
  function EncodeChar(c: char): (b: seq<uint8>)
    ensures 1 <= |b| <= 4
  {
    var cp := c as int;
    if cp < 0x80 then [cp]
    else if cp < 0x800 then [0xC0 + cp / 64, 0x80 + cp % 64]
    else if cp < 0x1_0000 then [0xE0 + cp / 4096, 0x80 + (cp / 64) % 64, 0x80 + cp % 64]
    else [0xF0 + cp / 262144, 0x80 + (cp / 4096) % 64, 0x80 + (cp / 64) % 64, 0x80 + cp % 64]
  }

  /** `new TextEncoder().encode(s)`. */
  function Encode(s: string): seq<uint8> {
    if s == [] then [] else EncodeChar(s[0]) + Encode(s[1..])
  }

  predicate InRange(b: uint8, lo: int, hi: int) {
    lo <= b <= hi
  }

  /** One step of the WHATWG UTF-8 decoder: the next character and how many bytes it used.
      An ill-formed sequence becomes U+FFFD and uses its maximal well-formed prefix (at least one byte). */
  function DecodeOne(b: seq<uint8>): (r: (char, nat))
    requires |b| > 0
    ensures 1 <= r.1 <= |b| && r.1 <= 4
  {
    var lead := b[0] as int;
    if lead < 0x80 then (lead as char, 1)
    else if 0xC2 <= lead <= 0xDF then
      if |b| < 2 || !InRange(b[1], 0x80, 0xBF) then (Replacement, 1)
      else (((lead - 0xC0) * 64 + (b[1] as int - 0x80)) as char, 2)
    else if 0xE0 <= lead <= 0xEF then
      var lo := if lead == 0xE0 then 0xA0 else 0x80;
      var hi := if lead == 0xED then 0x9F else 0xBF;
      if |b| < 2 || !InRange(b[1], lo, hi) then (Replacement, 1)
      else if |b| < 3 || !InRange(b[2], 0x80, 0xBF) then (Replacement, 2)
      else
        var cp := (lead - 0xE0) * 4096 + (b[1] as int - 0x80) * 64 + (b[2] as int - 0x80);
        assert 0x800 <= cp < 0xD800 || 0xE000 <= cp < 0x1_0000;
        (cp as char, 3)
    else if 0xF0 <= lead <= 0xF4 then
      var lo := if lead == 0xF0 then 0x90 else 0x80;
      var hi := if lead == 0xF4 then 0x8F else 0xBF;
      if |b| < 2 || !InRange(b[1], lo, hi) then (Replacement, 1)
      else if |b| < 3 || !InRange(b[2], 0x80, 0xBF) then (Replacement, 2)
      else if |b| < 4 || !InRange(b[3], 0x80, 0xBF) then (Replacement, 3)
      else
        var cp := (lead - 0xF0) * 262144 + (b[1] as int - 0x80) * 4096 + (b[2] as int - 0x80) * 64 + (b[3] as int - 0x80);
        assert 0x1_0000 <= cp < 0x11_0000;
        (cp as char, 4)
    else (Replacement, 1)
  }

  /** The WHATWG UTF-8 decoder without the byte-order-mark step. */
  function DecodeStream(b: seq<uint8>): string
    decreases |b|
  {
    if b == [] then []
    else
      var r := DecodeOne(b);
      [r.0] + DecodeStream(b[r.1..])
  }

  /** `new TextDecoder().decode(b)`: a leading EF BB BF is dropped, then the stream is decoded.
      It never fails. */
  function Decode(b: seq<uint8>): string {
    if |b| >= 3 && b[..3] == [0xEF, 0xBB, 0xBF] then DecodeStream(b[3..]) else DecodeStream(b)
  }

  lemma Split64(x: int)
    requires x >= 0
    ensures x == (x / 64) * 64 + x % 64
    ensures x / 4096 == (x / 64) / 64 && x / 262144 == (x / 4096) / 64
    ensures (x / 64) == (x / 4096) * 64 + (x / 64) % 64
    ensures (x / 4096) == (x / 262144) * 64 + (x / 4096) % 64
  {
  }

  /** The decoder reads back one encoded character whatever follows it. */
  lemma DecodeOneEncodeChar(c: char, rest: seq<uint8>)
    ensures DecodeOne(EncodeChar(c) + rest) == (c, |EncodeChar(c)|)
  {
    var cp := c as int;
    if cp < 0x80 {
    } else if cp < 0x800 {
      DecodeTwoBytes(c, rest);
    } else if cp < 0x1_0000 {
      DecodeThreeBytes(c, rest);
    } else {
      DecodeFourBytes(c, rest);
    }
  }

  lemma DecodeTwoBytes(c: char, rest: seq<uint8>)
    requires 0x80 <= c as int < 0x800
    ensures DecodeOne(EncodeChar(c) + rest) == (c, 2)
  {
    var cp := c as int;
    var b := EncodeChar(c) + rest;
    Split64(cp);
    assert b[0] == 0xC0 + cp / 64 && b[1] == 0x80 + cp % 64;
  }

  lemma DecodeThreeBytes(c: char, rest: seq<uint8>)
    requires 0x800 <= c as int < 0x1_0000
    ensures DecodeOne(EncodeChar(c) + rest) == (c, 3)
  {
    var cp := c as int;
    var b := EncodeChar(c) + rest;
    Split64(cp);
    assert b[0] == 0xE0 + cp / 4096 && b[1] == 0x80 + (cp / 64) % 64 && b[2] == 0x80 + cp % 64;
    assert (b[0] as int - 0xE0) * 4096 + (b[1] as int - 0x80) * 64 + (b[2] as int - 0x80) == cp;
  }

  lemma DecodeFourBytes(c: char, rest: seq<uint8>)
    requires 0x1_0000 <= c as int
    ensures DecodeOne(EncodeChar(c) + rest) == (c, 4)
  {
    var cp := c as int;
    var b := EncodeChar(c) + rest;
    Split64(cp);
    assert b[0] == 0xF0 + cp / 262144 && b[1] == 0x80 + (cp / 4096) % 64;
    assert b[2] == 0x80 + (cp / 64) % 64 && b[3] == 0x80 + cp % 64;
    assert (b[0] as int - 0xF0) * 262144 + (b[1] as int - 0x80) * 4096 + (b[2] as int - 0x80) * 64 + (b[3] as int - 0x80) == cp;
  }

  /** Decoding the stream of an encoding gives the string back. */
  lemma {:induction false} DecodeStreamEncode(s: string)
    ensures DecodeStream(Encode(s)) == s
  {
    if s != [] {
      var e := EncodeChar(s[0]);
      var rest := Encode(s[1..]);
      DecodeOneEncodeChar(s[0], rest);
      assert (e + rest)[|e|..] == rest;
      DecodeStreamEncode(s[1..]);
    }
  }

  /** The encoding begins with EF BB BF exactly when the string begins with U+FEFF. */
  lemma EncodeStartsWithBom(s: string)
    ensures (|Encode(s)| >= 3 && Encode(s)[..3] == [0xEF, 0xBB, 0xBF]) <==> (s != [] && s[0] == ByteOrderMark)
  {
    if s != [] {
      var e := EncodeChar(s[0]);
      var cp := s[0] as int;
      Split64(cp);
      assert Encode(s) == e + Encode(s[1..]);
      if |Encode(s)| >= 3 && Encode(s)[..3] == [0xEF, 0xBB, 0xBF] {
        assert Encode(s)[0] == 0xEF && Encode(s)[1] == 0xBB && Encode(s)[2] == 0xBF;
        assert e[0] == 0xEF;
        assert cp >= 0x800 && cp < 0x1_0000;
        assert e[1] == 0xBB && e[2] == 0xBF;
      }
    }
  }

  /** `TextDecoder` undoes `TextEncoder` for every string that does not begin with U+FEFF. */
  lemma DecodeEncode(s: string)
    requires s == [] || s[0] != ByteOrderMark
    ensures Decode(Encode(s)) == s
  {
    EncodeStartsWithBom(s);
    DecodeStreamEncode(s);
  }

  /** ... and loses a leading U+FEFF: the decoder treats it as a byte-order mark. */
  lemma DecodeEncodeDropsBom(s: string)
    requires s != [] && s[0] == ByteOrderMark
    ensures Decode(Encode(s)) == s[1..]
  {
    EncodeStartsWithBom(s);
    assert Encode(s)[3..] == Encode(s[1..]);
    DecodeStreamEncode(s[1..]);
  }

  lemma {:induction false} EncodeAppend(s: string, t: string)
    ensures Encode(s + t) == Encode(s) + Encode(t)
  {
    if s != [] {
      assert (s + t)[0] == s[0] && (s + t)[1..] == s[1..] + t;
      EncodeAppend(s[1..], t);
    } else {
      assert s + t == t;
    }
  }

  /** Characters below U+0080 encode as one byte each, equal to their code. */
  lemma {:induction false} EncodeAscii(s: string)
    requires forall i :: 0 <= i < |s| ==> (s[i] as int) < 0x80
    ensures |Encode(s)| == |s| && forall i :: 0 <= i < |s| ==> Encode(s)[i] == s[i] as int
  {
    if s != [] {
      EncodeAscii(s[1..]);
    }
  }
}

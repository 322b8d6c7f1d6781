/** Base64 (RFC 4648, section 4) as the web platform's `btoa` and `atob` implement it.
    `btoa` takes a binary string and always pads; `atob` is the WHATWG "forgiving-base64
    decode": it drops ASCII whitespace, accepts a missing padding, and discards the unused
    bits of the last character. */
module Base64 {
  import opened Bytes
  import opened Wrappers

  /** The 64 characters of the RFC 4648 alphabet, in value order. */
  function CharOf(v: int): (c: char)
    requires 0 <= v < 64
  {
    if v < 26 then ('A' as int + v) as char
    else if v < 52 then ('a' as int + v - 26) as char
    else if v < 62 then ('0' as int + v - 52) as char
    else if v == 62 then '+'
    else '/'
  }

  predicate IsAlphabetChar(c: char) {
    ('A' <= c <= 'Z') || ('a' <= c <= 'z') || ('0' <= c <= '9') || c == '+' || c == '/'
  }

  /** The value of an alphabet character. */
  function ValueOf(c: char): (v: int)
    requires IsAlphabetChar(c)
    ensures 0 <= v < 64 && CharOf(v) == c
  {
    if 'A' <= c <= 'Z' then c as int - 'A' as int
    else if 'a' <= c <= 'z' then c as int - 'a' as int + 26
    else if '0' <= c <= '9' then c as int - '0' as int + 52
    else if c == '+' then 62
    else 63
  }

  lemma CharOfIsAlphabet(v: int)
    requires 0 <= v < 64
    ensures IsAlphabetChar(CharOf(v)) && ValueOf(CharOf(v)) == v
  {
  }

  /** Three bytes as four characters (RFC 4648, section 4). */
  function EncodeGroup(x: uint8, y: uint8, z: uint8): (s: string)
    ensures |s| == 4 && forall i :: 0 <= i < 4 ==> IsAlphabetChar(s[i])
  {
    CharOfIsAlphabet(x / 4);
    CharOfIsAlphabet((x % 4) * 16 + y / 16);
    CharOfIsAlphabet((y % 16) * 4 + z / 64);
    CharOfIsAlphabet(z % 64);
    [CharOf(x / 4), CharOf((x % 4) * 16 + y / 16), CharOf((y % 16) * 4 + z / 64), CharOf(z % 64)]
  }

  /** The encoding without its padding: 4 characters per 3 bytes, 2 or 3 for a final 1 or 2. */
  function Unpadded(b: seq<uint8>): (s: string)
    ensures forall i :: 0 <= i < |s| ==> IsAlphabetChar(s[i])
  {
    if |b| == 0 then []
    else if |b| == 1 then EncodeGroup(b[0], 0, 0)[..2]
    else if |b| == 2 then EncodeGroup(b[0], b[1], 0)[..3]
    else EncodeGroup(b[0], b[1], b[2]) + Unpadded(b[3..])
  }

  lemma {:induction false} UnpaddedLength(b: seq<uint8>)
    ensures |Unpadded(b)| % 4 == (if |b| % 3 == 0 then 0 else |b| % 3 + 1)
  {
    if |b| >= 3 {
      var m := |b| - 3;
      UnpaddedLength(b[3..]);
      var x := |Unpadded(b[3..])|;
      assert |Unpadded(b)| == x + 4;
      ModShift4(x);
      ModShift3(m);
    }
  }

  lemma ModShift4(x: nat)
    ensures (x + 4) % 4 == x % 4
  {
  }

  lemma ModShift3(x: nat)
    ensures (x + 3) % 3 == x % 3
  {
  }

  function Padding(n: nat): string {
    if n % 3 == 1 then "==" else if n % 3 == 2 then "=" else ""
  }

  /** The padded base64 encoding of a byte sequence. */
  function Encode(b: seq<uint8>): string {
    Unpadded(b) + Padding(|b|)
  }

  /** `btoa(s)`: fails (throws) when a character of `s` is not a byte. */
  function Btoa(s: string): Option<string> {
    if IsBinaryString(s) then Some(Encode(FromBinaryString(s))) else None
  }

  /** ASCII whitespace as the WHATWG Infra standard defines it. */
  predicate IsAsciiWhitespace(c: char) {
    c == '\t' || c == '\n' || c == '\U{0C}' || c == '\r' || c == ' '
  }

  function RemoveAsciiWhitespace(s: string): (r: string)
    ensures forall i :: 0 <= i < |r| ==> !IsAsciiWhitespace(r[i])
  {
    if s == [] then []
    else if IsAsciiWhitespace(s[0]) then RemoveAsciiWhitespace(s[1..])
    else [s[0]] + RemoveAsciiWhitespace(s[1..])
  }

  /** Step 2 of forgiving-base64: a length divisible by 4 may end in one or two `=`. */
  function StripPadding(s: string): string {
    if |s| % 4 == 0 && |s| >= 2 && s[|s| - 2..] == "==" then s[..|s| - 2]
    else if |s| % 4 == 0 && |s| >= 1 && s[|s| - 1] == '=' then s[..|s| - 1]
    else s
  }

  /** Four characters as three bytes; the inverse of `EncodeGroup`. */
  function DecodeGroup(s: string): (b: seq<uint8>)
    requires |s| == 4 && forall i :: 0 <= i < 4 ==> IsAlphabetChar(s[i])
    ensures |b| == 3
  {
    var v0, v1, v2, v3 := ValueOf(s[0]), ValueOf(s[1]), ValueOf(s[2]), ValueOf(s[3]);
    [v0 * 4 + v1 / 16, (v1 % 16) * 16 + v2 / 4, (v2 % 4) * 64 + v3]
  }

  /** Decoding of unpadded alphabet characters; a final 2 or 3 give 1 or 2 bytes and their
      leftover bits are dropped. */
  function DecodeChars(s: string): (b: seq<uint8>)
    requires |s| % 4 != 1
    requires forall i :: 0 <= i < |s| ==> IsAlphabetChar(s[i])
  {
    if |s| == 0 then []
    else if |s| == 2 then DecodeGroup(s + "AA")[..1]
    else if |s| == 3 then DecodeGroup(s + "A")[..2]
    else DecodeGroup(s[..4]) + DecodeChars(s[4..])
  }

  /** Forgiving-base64 decoding to bytes; `None` is `atob` throwing. */
  function Decode(s: string): Option<seq<uint8>> {
    var t := StripPadding(RemoveAsciiWhitespace(s));
    if |t| % 4 == 1 then None
    else if exists i :: 0 <= i < |t| && !IsAlphabetChar(t[i]) then None
    else Some(DecodeChars(t))
  }

  /** `atob(s)`: the decoded bytes as a binary string, or failure. */
  function Atob(s: string): (r: Option<string>)
    ensures r.Some? ==> IsBinaryString(r.value)
  {
    match Decode(s)
    case Some(b) => Some(ToBinaryString(b))
    case None => None
  }

  lemma SplitSixteen(a: int, b: int)
    requires 0 <= b < 16
    ensures (a * 16 + b) / 16 == a && (a * 16 + b) % 16 == b
  {
  }

  lemma SplitFour(a: int, b: int)
    requires 0 <= b < 4
    ensures (a * 4 + b) / 4 == a && (a * 4 + b) % 4 == b
  {
  }

  lemma SplitSixtyFour(a: int, b: int)
    requires 0 <= b < 64
    ensures (a * 64 + b) / 64 == a && (a * 64 + b) % 64 == b
  {
  }

  /** The bit arithmetic of one group: the sextets of three bytes give the bytes back. */
  lemma GroupArithmetic(x: uint8, y: uint8, z: uint8)
    ensures (x / 4) * 4 + ((x % 4) * 16 + y / 16) / 16 == x
    ensures (((x % 4) * 16 + y / 16) % 16) * 16 + ((y % 16) * 4 + z / 64) / 4 == y
    ensures (((y % 16) * 4 + z / 64) % 4) * 64 + z % 64 == z
  {
    SplitSixteen(x % 4, y / 16);
    SplitFour(y % 16, z / 64);
  }

  lemma DecodeEncodeGroup(x: uint8, y: uint8, z: uint8)
    ensures DecodeGroup(EncodeGroup(x, y, z)) == [x, y, z]
  {
    var s := EncodeGroup(x, y, z);
    CharOfIsAlphabet(x / 4);
    CharOfIsAlphabet((x % 4) * 16 + y / 16);
    CharOfIsAlphabet((y % 16) * 4 + z / 64);
    CharOfIsAlphabet(z % 64);
    GroupArithmetic(x, y, z);
  }

  /** A final two bytes: three characters, decoded through a padding `A`. */
  lemma DecodeTail2(x: uint8, y: uint8)
    ensures DecodeChars(Unpadded([x, y])) == [x, y]
  {
    var g := EncodeGroup(x, y, 0);
    var s := Unpadded([x, y]);
    assert s == g[..3];
    DecodeEncodeGroup(x, y, 0);
    assert s + "A" == [g[0], g[1], g[2], 'A'];
    assert DecodeGroup(s + "A")[..2] == DecodeGroup(g)[..2];
  }

  /** A final byte: two characters, decoded through a padding `AA`. */
  lemma DecodeTail1(x: uint8)
    ensures DecodeChars(Unpadded([x])) == [x]
  {
    var g := EncodeGroup(x, 0, 0);
    var s := Unpadded([x]);
    assert s == g[..2];
    DecodeEncodeGroup(x, 0, 0);
    assert s + "AA" == [g[0], g[1], 'A', 'A'];
    assert DecodeGroup(s + "AA")[..1] == DecodeGroup(g)[..1];
  }

  /** Decoding a whole group followed by more characters decodes the group first. */
  lemma DecodeCharsConcat(g: string, rest: string)
    requires |g| == 4 && |rest| % 4 != 1
    requires forall i :: 0 <= i < 4 ==> IsAlphabetChar(g[i])
    requires forall i :: 0 <= i < |rest| ==> IsAlphabetChar(rest[i])
    ensures |g + rest| % 4 != 1
    ensures forall i :: 0 <= i < |g + rest| ==> IsAlphabetChar((g + rest)[i])
    ensures DecodeChars(g + rest) == DecodeGroup(g) + DecodeChars(rest)
  {
    ModShift4(|rest|);
    var s := g + rest;
    assert forall i :: 0 <= i < |s| ==> s[i] == if i < 4 then g[i] else rest[i - 4];
    assert s[..4] == g && s[4..] == rest;
  }

  lemma {:induction false} DecodeUnpadded(b: seq<uint8>)
    ensures |Unpadded(b)| % 4 != 1 && DecodeChars(Unpadded(b)) == b
  {
    if |b| >= 3 {
      var g := EncodeGroup(b[0], b[1], b[2]);
      var rest := Unpadded(b[3..]);
      DecodeUnpadded(b[3..]);
      assert Unpadded(b) == g + rest;
      DecodeCharsConcat(g, rest);
      DecodeEncodeGroup(b[0], b[1], b[2]);
      assert b == [b[0], b[1], b[2]] + b[3..];
    } else if |b| == 2 {
      assert b == [b[0], b[1]];
      DecodeTail2(b[0], b[1]);
    } else if |b| == 1 {
      assert b == [b[0]];
      DecodeTail1(b[0]);
    }
  }

  lemma {:induction false} RemoveWhitespaceNoop(s: string)
    requires forall i :: 0 <= i < |s| ==> !IsAsciiWhitespace(s[i])
    ensures RemoveAsciiWhitespace(s) == s
  {
    if s != [] {
      RemoveWhitespaceNoop(s[1..]);
    }
  }

  /** Every character of an encoding is an alphabet character or `=`; its length is a multiple of 4. */
  lemma EncodeShape(b: seq<uint8>)
    ensures |Encode(b)| % 4 == 0
    ensures forall i :: 0 <= i < |Encode(b)| ==> IsAlphabetChar(Encode(b)[i]) || Encode(b)[i] == '='
  {
    EncodeLength(b);
    var u, p := Unpadded(b), Padding(|b|);
    forall i | 0 <= i < |u + p|
      ensures IsAlphabetChar((u + p)[i]) || (u + p)[i] == '='
    {
      if i < |u| {
        assert (u + p)[i] == u[i];
      } else {
        assert (u + p)[i] == p[i - |u|];
      }
    }
  }

  lemma EncodeLength(b: seq<uint8>)
    ensures |Encode(b)| % 4 == 0
  {
    UnpaddedLength(b);
    PaddingCompletes(|b|, |Unpadded(b)|);
  }

  /** The padding brings an unpadded length to a multiple of four. */
  lemma PaddingCompletes(n: nat, k: nat)
    requires k % 4 == (if n % 3 == 0 then 0 else n % 3 + 1)
    ensures (k + |Padding(n)|) % 4 == 0
  {
    var r := n % 3;
    if r == 1 {
      assert |Padding(n)| == 2;
    } else if r == 2 {
      assert |Padding(n)| == 1;
    } else {
      assert |Padding(n)| == 0;
    }
  }

  /** In particular an encoding never contains `.`, the token separator. */
  lemma EncodeHasNoDot(b: seq<uint8>)
    ensures '.' !in Encode(b)
  {
    EncodeShape(b);
  }

  /** Forgiving decoding undoes the padded encoding. */
  lemma DecodeEncode(b: seq<uint8>)
    ensures Decode(Encode(b)) == Some(b)
  {
    var e := Encode(b);
    var u := Unpadded(b);
    EncodeShape(b);
    RemoveWhitespaceNoop(e);
    StripEncode(b);
    DecodeUnpadded(b);
    assert Decode(e) == Some(DecodeChars(u));
  }

  /** Stripping the padding of an encoding leaves the unpadded encoding. */
  lemma StripEncode(b: seq<uint8>)
    ensures StripPadding(Encode(b)) == Unpadded(b)
  {
    var u := Unpadded(b);
    UnpaddedLength(b);
    var n := |b| % 3;
    assert Encode(b) == u + Padding(|b|);
    if n == 1 {
      assert Padding(|b|) == "==";
      StripTwo(u);
    } else if n == 2 {
      assert Padding(|b|) == "=";
      assert IsAlphabetChar(u[|u| - 1]);
      StripOne(u);
    } else {
      assert Padding(|b|) == "" && u + "" == u;
      if |u| >= 1 {
        assert IsAlphabetChar(u[|u| - 1]);
      }
      StripNone(u);
    }
  }

  lemma StripTwo(u: string)
    requires |u| % 4 == 2
    ensures StripPadding(u + "==") == u
  {
    var e := u + "==";
    assert |e| % 4 == 0;
    assert e[|e| - 2..] == "==";
    assert e[..|e| - 2] == u;
  }

  lemma StripOne(u: string)
    requires |u| % 4 == 3 && u[|u| - 1] != '='
    ensures StripPadding(u + "=") == u
  {
    var e := u + "=";
    assert |e| % 4 == 0;
    assert e[|e| - 2..] != "==" by { assert e[|e| - 2..][0] == u[|u| - 1]; }
    assert e[|e| - 1] == '=';
    assert e[..|e| - 1] == u;
  }

  lemma StripNone(u: string)
    requires |u| % 4 == 0 && (|u| >= 1 ==> u[|u| - 1] != '=')
    ensures StripPadding(u) == u
  {
    if |u| >= 2 {
      assert u[|u| - 2..][1] == u[|u| - 1];
    }
  }

  /** `atob(btoa(s)) == s` for every binary string. */
  lemma AtobBtoa(s: string)
    requires IsBinaryString(s)
    ensures Btoa(s).Some? && Atob(Btoa(s).value) == Some(s)
  {
    DecodeEncode(FromBinaryString(s));
    assert ToBinaryString(FromBinaryString(s)) == s;
  }

  /** Forgiving decoding also accepts the unpadded encoding (the form JWTs use). */
  lemma AtobUnpadded(b: seq<uint8>)
    ensures Atob(Unpadded(b)) == Some(ToBinaryString(b))
  {
    var u := Unpadded(b);
    RemoveWhitespaceNoop(u);
    NoPaddingToStrip(u);
    UnpaddedLength(b);
    DecodeUnpadded(b);
    assert Decode(u) == Some(b);
  }

  lemma NoPaddingToStrip(s: string)
    requires forall i :: 0 <= i < |s| ==> IsAlphabetChar(s[i])
    ensures StripPadding(s) == s
  {
    if |s| >= 1 {
      assert s[|s| - 1] != '=' by { assert IsAlphabetChar(s[|s| - 1]); }
      if |s| >= 2 {
        assert s[|s| - 2..][1] == s[|s| - 1];
      }
    }
  }

  /** `atob` throws on a character that is neither whitespace, padding nor in the alphabet. */
  lemma AtobRejects(s: string, c: char)
    requires c in s && !IsAlphabetChar(c) && !IsAsciiWhitespace(c) && c != '='
    ensures Atob(s) == None
  {
    KeptByRemoveWhitespace(s, c);
    var r := RemoveAsciiWhitespace(s);
    var t := StripPadding(r);
    var i :| 0 <= i < |r| && r[i] == c;
    assert t == r[..|t|];
    assert i < |t| && t[i] == c;
  }

  lemma {:induction false} KeptByRemoveWhitespace(s: string, c: char)
    requires c in s && !IsAsciiWhitespace(c)
    ensures c in RemoveAsciiWhitespace(s)
  {
    if s[0] != c {
      KeptByRemoveWhitespace(s[1..], c);
    }
  }

  /** `atob` is not injective: a final character that differs only in discarded bits decodes
      the same (here "QQ==" and "QR==" both give the one byte 0x41). */
  lemma AtobIgnoresLeftoverBits()
    ensures Decode("QQ==") == Decode("QR==") == Some([0x41])
  {
    DecodeOneByteGroup('Q', 'Q');
    DecodeOneByteGroup('Q', 'R');
  }

  /** A two-character group padded with `==` decodes to one byte. */
  lemma DecodeOneByteGroup(a: char, b: char)
    requires a == 'Q' && (b == 'Q' || b == 'R')
    ensures Decode([a, b, '=', '=']) == Some([0x41])
  {
    var s := [a, b, '=', '='];
    assert RemoveAsciiWhitespace(s) == s by { RemoveWhitespaceNoop(s); }
    assert s[2..] == "==" && s[..2] == [a, b];
    assert StripPadding(s) == [a, b];
    assert ValueOf(a) == 16 && (ValueOf(b) == 16 || ValueOf(b) == 17) && ValueOf('A') == 0;
    assert [a, b] + "AA" == [a, b, 'A', 'A'];
    assert DecodeGroup([a, b, 'A', 'A'])[..1] == [0x41];
  }
}

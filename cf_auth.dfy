/** Cloudflare Access login of `src/lib/cf-auth.ts`: checking an Access JWT (RFC 7519) and
    finding it in a request. The certificate fetch is given by its outcome, RSASSA-PKCS1-v1_5
    verification (with the key import before it) and the two `JSON.parse` calls are
    function-valued parameters, and the clock is a reading. */
module CfAuth {
  import opened Wrappers
  import opened Bytes
  import opened Text
  import opened StringSplit
  import Utf8
  import Base64

  const TeamDomain := "villode.cloudflareaccess.com"
  const Audience := "34e98442-f89b-4cc0-8a34-165fa4a33ae8"
  const CertsUrl := "https://" + TeamDomain + "/cdn-cgi/access/certs"

  /** A public key from the certificate endpoint; only `kid` is looked at here. */
  datatype Jwk = Jwk(kid: Option<string>, n: string, e: string)

  /** The JWT header; `kid` is absent when the header has none. */
  datatype Header = Header(kid: Option<string>)

  /** The claims, cast without checking; `exp` is absent when it is missing or not a number. */
  datatype AccessUser = AccessUser(email: string, sub: string, iat: int, exp: Option<int>, iss: string, aud: seq<string>)

  /** What verification depends on besides the token. `keys` is `getPublicKeys()`, `None`
      when the fetch or its JSON fails. `rsaVerify(key, signature, data)` is the key import
      and `crypto.subtle.verify`, `None` when either throws. */
  datatype Verifier = Verifier(
    keys: Option<seq<Jwk>>,
    parseHeader: string -> Option<Header>,
    parsePayload: string -> Option<AccessUser>,
    rsaVerify: (Jwk, seq<uint8>, seq<uint8>) -> Option<bool>,
    nowMs: int)

  /** The position of the first key with that `kid`; two absent `kid`s are equal, as
      `undefined === undefined` is. */
  function KeyIndex(keys: seq<Jwk>, kid: Option<string>): (r: Option<nat>)
    ensures r.None? <==> forall i :: 0 <= i < |keys| ==> keys[i].kid != kid
    ensures r.Some? ==> r.value < |keys| && keys[r.value].kid == kid
                        && forall j :: 0 <= j < r.value ==> keys[j].kid != kid
  {
    if keys == [] then None
    else if keys[0].kid == kid then Some(0)
    else match KeyIndex(keys[1..], kid)
      case None => None
      case Some(i) => Some(i + 1)
  }

  /** `keys.find(k => k.kid === kid)`. */
  function FindKey(keys: seq<Jwk>, kid: Option<string>): (r: Option<Jwk>)
    ensures r.None? <==> forall i :: 0 <= i < |keys| ==> keys[i].kid != kid
    ensures r.Some? ==> r.value in keys && r.value.kid == kid
  {
    match KeyIndex(keys, kid)
    case None => None
    case Some(i) => Some(keys[i])
  }

  /** `replace(/-/g, '+').replace(/_/g, '/')`: the base64url alphabet (RFC 4648, section 5)
      mapped onto the base64 one. */
  function FromUrlAlphabet(s: string): (r: string)
    ensures |r| == |s|
    ensures forall i :: 0 <= i < |s| ==> r[i] == (if s[i] == '-' then '+' else if s[i] == '_' then '/' else s[i])
  {
    seq(|s|, i requires 0 <= i < |s| => if s[i] == '-' then '+' else if s[i] == '_' then '/' else s[i])
  }

  /** The base64url form of a base64 text, the way a JWT is written (RFC 7515, section 2).
      It stands for the token issuer's encoding, which `verifyAccessJWT` only undoes; no line
      of the verifier computes it. */
  function ToUrlAlphabet(s: string): (r: string)
    ensures |r| == |s|
    ensures forall i :: 0 <= i < |s| ==> r[i] == (if s[i] == '+' then '-' else if s[i] == '/' then '_' else s[i])
    ensures '-' !in s && '_' !in s ==> FromUrlAlphabet(r) == s
  {
    seq(|s|, i requires 0 <= i < |s| => if s[i] == '+' then '-' else if s[i] == '/' then '_' else s[i])
  }

  /** The unpadded base64url encoding of bytes. */
  function UrlEncode(b: seq<uint8>): string {
    ToUrlAlphabet(Base64.Unpadded(b))
  }

  /** A base64url encoding is free of `.`; translating it back gives the base64 encoding, which
      `atob` accepts. */
  lemma UrlEncodeDecodes(b: seq<uint8>)
    ensures '.' !in UrlEncode(b)
    ensures Base64.Atob(FromUrlAlphabet(UrlEncode(b))) == Some(ToBinaryString(b))
  {
    var u := Base64.Unpadded(b);
    assert FromUrlAlphabet(ToUrlAlphabet(u)) == u;
    Base64.AtobUnpadded(b);
    forall i | 0 <= i < |u|
      ensures UrlEncode(b)[i] != '.'
    {
      assert Base64.IsAlphabetChar(u[i]);
    }
  }

  /** `payload.exp * 1000 < Date.now()`; a missing or non-numeric `exp` gives `NaN`, which
      compares false, so such a token never expires. */
  predicate Expired(exp: Option<int>, nowMs: int) {
    exp.Some? && exp.value * 1000 < nowMs
  }

  /** `verifyAccessJWT(token)`. Every exception, including a token with fewer than three
      segments (the signature segment is then `undefined`), is `None`, as the `catch` makes
      it. The header is decoded to find the key; the signature segment, translated from
      base64url, is checked over the UTF-8 of exactly `header + "." + payload`; then the
      payload is decoded, its audience must contain `Audience`, and it must not be
      expired. The header and payload segments are passed to `atob` untranslated. */
  function VerifyAccessJwt(token: string, v: Verifier): (r: Option<AccessUser>)
    ensures r.Some? ==> Audience in r.value.aud && !Expired(r.value.exp, v.nowMs)
    ensures r.Some? ==> |Split(token, '.')| >= 3
    ensures r.Some? ==>
              var parts := Split(token, '.');
              && v.keys.Some? && Base64.Atob(parts[0]).Some?
              && v.parseHeader(Base64.Atob(parts[0]).value).Some?
              && var key := FindKey(v.keys.value, v.parseHeader(Base64.Atob(parts[0]).value).value.kid);
                 && key.Some?
                 && Base64.Atob(FromUrlAlphabet(parts[2])).Some?
                 && v.rsaVerify(key.value, FromBinaryString(Base64.Atob(FromUrlAlphabet(parts[2])).value), Utf8.Encode(parts[0] + "." + parts[1])) == Some(true)
                 && Base64.Atob(parts[1]).Some?
                 && v.parsePayload(Base64.Atob(parts[1]).value) == Some(r.value)
  {
    var parts := Split(token, '.');
    var headerB64 := parts[0];
    match v.keys
    case None => None
    case Some(keys) =>
      match Base64.Atob(headerB64)
      case None => None
      case Some(headerText) =>
        match v.parseHeader(headerText)
        case None => None
        case Some(header) =>
          match FindKey(keys, header.kid)
          case None => None
          case Some(key) =>
            if |parts| < 3 then None
            else
              var payloadB64 := parts[1];
              match Base64.Atob(FromUrlAlphabet(parts[2]))
              case None => None
              case Some(signature) =>
                if v.rsaVerify(key, FromBinaryString(signature), Utf8.Encode(headerB64 + "." + payloadB64)) != Some(true) then None
                else
                  match Base64.Atob(payloadB64)
                  case None => None
                  case Some(payloadText) =>
                    match v.parsePayload(payloadText)
                    case None => None
                    case Some(payload) =>
                      if Audience !in payload.aud then None
                      else if Expired(payload.exp, v.nowMs) then None
                      else Some(payload)
  }

  /** Splitting a three-segment token recovers its segments. */
  lemma SplitThree(h: string, p: string, s: string)
    requires '.' !in h && '.' !in p && '.' !in s
    ensures Split(h + "." + p + "." + s, '.') == [h, p, s]
  {
    assert h + "." + p + "." + s == h + ['.'] + (p + ['.'] + s);
    SplitFirst(h, '.', p + ['.'] + s);
    SplitPair(p, '.', s);
  }

  /** A well-formed token whose header names a published key, whose signature verifies over
      `header.payload`, and whose claims carry the audience and have not expired, is
      accepted with exactly its claims. */
  lemma AcceptsValidToken(h: string, p: string, sig: seq<uint8>, header: Header, key: Jwk, claims: AccessUser, v: Verifier)
    requires '.' !in h && '.' !in p
    requires v.keys.Some? && FindKey(v.keys.value, header.kid) == Some(key)
    requires Base64.Atob(h).Some? && v.parseHeader(Base64.Atob(h).value) == Some(header)
    requires v.rsaVerify(key, sig, Utf8.Encode(h + "." + p)) == Some(true)
    requires Base64.Atob(p).Some? && v.parsePayload(Base64.Atob(p).value) == Some(claims)
    requires Audience in claims.aud && !Expired(claims.exp, v.nowMs)
    ensures VerifyAccessJwt(h + "." + p + "." + UrlEncode(sig), v) == Some(claims)
  {
    UrlEncodeDecodes(sig);
    SplitThree(h, p, UrlEncode(sig));
    BinaryStringRoundTrip(sig);
  }

  /** A header naming no published key is rejected. */
  lemma UnknownKeyRejected(token: string, header: Header, v: Verifier)
    requires v.keys.Some? && forall i :: 0 <= i < |v.keys.value| ==> v.keys.value[i].kid != header.kid
    requires Base64.Atob(Split(token, '.')[0]).Some?
    requires v.parseHeader(Base64.Atob(Split(token, '.')[0]).value) == Some(header)
    ensures VerifyAccessJwt(token, v) == None
  {
  }

  /** A signature segment that `atob` accepts in any form (padded or not, with whitespace or
      leftover bits) but that does not verify over exactly `header.payload` with the
      header's key is rejected, whatever the claims and however many segments follow. */
  lemma BadSignatureRejected(token: string, header: Header, key: Jwk, signature: string, v: Verifier)
    requires |Split(token, '.')| >= 3
    requires v.keys.Some? && Base64.Atob(Split(token, '.')[0]).Some?
    requires v.parseHeader(Base64.Atob(Split(token, '.')[0]).value) == Some(header)
    requires FindKey(v.keys.value, header.kid) == Some(key)
    requires Base64.Atob(FromUrlAlphabet(Split(token, '.')[2])) == Some(signature)
    requires v.rsaVerify(key, FromBinaryString(signature), Utf8.Encode(Split(token, '.')[0] + "." + Split(token, '.')[1])) != Some(true)
    ensures VerifyAccessJwt(token, v) == None
  {
  }

  /** With the key and signature in order, the claims decide: the token is accepted iff the
      audience is listed and `exp * 1000` is not before the clock. */
  lemma ClaimsDecide(h: string, p: string, sig: seq<uint8>, header: Header, key: Jwk, claims: AccessUser, v: Verifier)
    requires '.' !in h && '.' !in p
    requires v.keys.Some? && FindKey(v.keys.value, header.kid) == Some(key)
    requires Base64.Atob(h).Some? && v.parseHeader(Base64.Atob(h).value) == Some(header)
    requires v.rsaVerify(key, sig, Utf8.Encode(h + "." + p)) == Some(true)
    requires Base64.Atob(p).Some? && v.parsePayload(Base64.Atob(p).value) == Some(claims)
    ensures VerifyAccessJwt(h + "." + p + "." + UrlEncode(sig), v).Some?
            <==> Audience in claims.aud && (claims.exp.None? || claims.exp.value * 1000 >= v.nowMs)
  {
    UrlEncodeDecodes(sig);
    SplitThree(h, p, UrlEncode(sig));
    BinaryStringRoundTrip(sig);
  }

  /** Only the signature is translated: a header or payload segment written with a base64url
      character (`-` or `_`) makes `atob` throw, so the token is rejected. */
  lemma UrlCharInHeaderOrPayloadRejected(token: string, c: char, v: Verifier)
    requires c == '-' || c == '_'
    requires c in Split(token, '.')[0] || (|Split(token, '.')| >= 2 && c in Split(token, '.')[1])
    ensures VerifyAccessJwt(token, v) == None
  {
    var parts := Split(token, '.');
    if c in parts[0] {
      Base64.AtobRejects(parts[0], c);
    } else {
      Base64.AtobRejects(parts[1], c);
    }
  }

  /** A token with fewer than three segments is rejected. */
  lemma ShortTokenRejected(token: string, v: Verifier)
    requires |Split(token, '.')| < 3
    ensures VerifyAccessJwt(token, v) == None
  {
  }

  /** The cookie name the pattern looks for. */
  const Marker := "CF_Authorization="

  /** `/CF_Authorization=([^;]+)/` matches at `i`: the name, then at least one non-`;`. There
      is no check that the name starts a cookie. */
  predicate MatchAt(cookie: string, i: nat) {
    i + |Marker| < |cookie| && cookie[i..i + |Marker|] == Marker && cookie[i + |Marker|] != ';'
  }

  /** The leftmost position at or after `from` where the pattern matches. */
  function FirstMatch(cookie: string, from: nat): (r: Option<nat>)
    ensures r.None? ==> forall j: nat :: from <= j ==> !MatchAt(cookie, j)
    ensures r.Some? ==> from <= r.value && MatchAt(cookie, r.value)
                        && forall j: nat :: from <= j < r.value ==> !MatchAt(cookie, j)
    decreases |cookie| - from
  {
    if from + |Marker| >= |cookie| then None
    else if MatchAt(cookie, from) then Some(from)
    else FirstMatch(cookie, from + 1)
  }

  /** The longest prefix without `;`: what `[^;]+` captures. */
  function UpToSemicolon(s: string): (r: string)
    ensures |r| <= |s| && r == s[..|r|] && ';' !in r
    ensures |r| == |s| || s[|r|] == ';'
  {
    if s == [] || s[0] == ';' then [] else [s[0]] + UpToSemicolon(s[1..])
  }

  /** `cookie.match(/CF_Authorization=([^;]+)/)?.[1]`: the non-empty run of non-`;`
      characters after the first match, or nothing when there is none. */
  function CookieToken(cookie: string): (r: Option<string>)
    ensures r.None? <==> forall j: nat :: !MatchAt(cookie, j)
    ensures r.Some? ==> r.value != [] && ';' !in r.value
  {
    match FirstMatch(cookie, 0)
    case None => None
    case Some(i) => Some(UpToSemicolon(cookie[i + |Marker|..]))
  }

  /** A cookie header that starts with the Access cookie yields its value. */
  lemma LeadingCookieToken(t: string, rest: string)
    requires t != [] && ';' !in t && (rest == [] || rest[0] == ';')
    ensures CookieToken(Marker + t + rest) == Some(t)
  {
    var c := Marker + t + rest;
    assert c[..|Marker|] == Marker;
    assert c[|Marker|] == t[0];
    assert MatchAt(c, 0);
    assert c[|Marker|..] == t + rest;
    UpToSemicolonExact(t, rest);
  }

  lemma {:induction false} UpToSemicolonExact(t: string, rest: string)
    requires ';' !in t && (rest == [] || rest[0] == ';')
    ensures UpToSemicolon(t + rest) == t
  {
    if t != [] {
      assert (t + rest)[1..] == t[1..] + rest;
      assert t[0] != ';' by { assert t[0] in t; }
      UpToSemicolonExact(t[1..], rest);
      assert [t[0]] + t[1..] == t;
    } else {
      assert t + rest == rest;
    }
  }

  /** Any text just before the name is ignored: no boundary is required. */
  lemma NoNameBoundary(prefix: string, t: string, rest: string)
    requires forall j: nat :: j < |prefix| ==> !MatchAt(prefix + Marker + t + rest, j)
    requires t != [] && ';' !in t && (rest == [] || rest[0] == ';')
    ensures CookieToken(prefix + Marker + t + rest) == Some(t)
  {
    var c := prefix + Marker + t + rest;
    var k := |prefix|;
    assert c[k..k + |Marker|] == Marker;
    assert c[k + |Marker|] == t[0];
    assert MatchAt(c, k);
    var i := FirstMatch(c, 0).value;
    assert i <= k;
    assert i >= k;
    assert c[k + |Marker|..] == t + rest;
    UpToSemicolonExact(t, rest);
  }

  /** `getUserFromRequest`: the `CF_Authorization` cookie takes precedence; without it a
      non-empty `CF-Access-JWT-Assertion` header is verified; with neither there is no user. */
  function GetUserFromRequest(cookieHeader: Option<string>, assertion: Option<string>, v: Verifier): (r: Option<AccessUser>)
    ensures cookieHeader.Some? && CookieToken(cookieHeader.value).Some? ==>
              r == VerifyAccessJwt(CookieToken(cookieHeader.value).value, v)
    ensures (cookieHeader.None? || CookieToken(cookieHeader.value).None?) && assertion.Some? && assertion.value != [] ==>
              r == VerifyAccessJwt(assertion.value, v)
    ensures (cookieHeader.None? || CookieToken(cookieHeader.value).None?) && (assertion.None? || assertion.value == []) ==>
              r.None?
  {
    var cookie := if cookieHeader.Some? then cookieHeader.value else [];
    match CookieToken(cookie)
    case Some(token) => VerifyAccessJwt(token, v)
    case None =>
      if assertion.Some? && assertion.value != [] then VerifyAccessJwt(assertion.value, v) else None
  }
}

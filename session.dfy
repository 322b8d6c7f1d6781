/** The signed session token of `src/lib/session.ts`: `base64(JSON(payload)) + "." +
    base64(HMAC-SHA256(secret, base64(JSON(payload))))`, with an absolute expiry.
    HMAC-SHA256 (RFC 2104) is the function-valued parameter `mac`; the clock is the
    parameter `now` (epoch milliseconds); JSON is the abstract codec `json`. */
module Session {
  import opened Wrappers
  import opened Bytes
  import Utf8
  import Base64
  import opened Json
  import opened StringSplit

  const SessionCookie: string := "session"

  /** Seven days in milliseconds: the lifetime stamped onto every payload. */
  const SessionLifetime: int := 7 * 24 * 60 * 60 * 1000

  const DevSecret: string := "dev-secret-key"

  datatype Role = Admin | User

  /** The payload: `exp` is absent (`None`) when the parsed JSON has no `exp` field. */
  datatype SessionData = SessionData(username: string, role: Role, exp: Option<int>)

  /** What signing and verifying depend on besides the token: the `GITHUB_CLIENT_SECRET`
      environment variable, HMAC-SHA256 as `mac(key, message)`, and the JSON codec. */
  datatype Context = Context(
    secretEnv: Option<string>,
    mac: (seq<uint8>, seq<uint8>) -> seq<uint8>,
    json: Codec<SessionData>)

  /** HMAC-SHA256 produces a 32-byte tag for every key and message. */
  ghost predicate MacTagLength(mac: (seq<uint8>, seq<uint8>) -> seq<uint8>) {
    forall k, m :: |mac(k, m)| == 32
  }

  /** `getSecret()`: the environment secret, or the development fallback when it is unset or
      empty. The key is never empty, so an unset secret never disables verification. */
  function GetSecret(env: Option<string>): (secret: string)
    ensures secret != []
    ensures env.Some? && env.value != [] ==> secret == env.value
    ensures env.None? || env.value == [] ==> secret == DevSecret
  {
    if env.Some? && env.value != [] then env.value else DevSecret
  }

  function SecretKey(ctx: Context): seq<uint8> {
    Utf8.Encode(GetSecret(ctx.secretEnv))
  }

  /** What `base64Encode` computes: the base64 text of the UTF-8 bytes of `str`. */
  function EncodeText(str: string): string {
    Base64.Encode(Utf8.Encode(str))
  }

  /** What `base64Decode` computes: `atob` (which may fail), then `TextDecoder`. */
  function DecodeText(b64: string): Option<string> {
    match Base64.Atob(b64)
    case None => None
    case Some(binary) => Some(Utf8.Decode(FromBinaryString(binary)))
  }

  lemma BtoaOfBytes(b: seq<uint8>)
    ensures Base64.Btoa(ToBinaryString(b)) == Some(Base64.Encode(b))
  {
    BinaryStringRoundTrip(b);
  }

  /** `base64Encode`: UTF-8 encode, copy the bytes into a binary string one by one, `btoa`. */
  method Base64Encode(str: string) returns (r: string)
    ensures r == EncodeText(str)
  {
    var bytes := Utf8.Encode(str);
    var binary := "";
    for i := 0 to |bytes|
      invariant binary == ToBinaryString(bytes[..i])
    {
      binary := binary + [ByteChar(bytes[i])];
    }
    assert bytes[..|bytes|] == bytes;
    BtoaOfBytes(bytes);
    var encoded := Base64.Btoa(binary);
    r := encoded.value;
  }

  /** `base64Decode`: `atob` (failure is the exception), copy the character codes into a byte
      array, `TextDecoder`. */
  method Base64Decode(b64: string) returns (r: Option<string>)
    ensures r == DecodeText(b64)
  {
    var decoded := Base64.Atob(b64);
    if decoded.None? {
      return None;
    }
    var binary := decoded.value;
    var bytes := new uint8[|binary|];
    for i := 0 to |binary|
      invariant forall j :: 0 <= j < i ==> bytes[j] == binary[j] as int
    {
      bytes[i] := binary[i] as int;
    }
    assert bytes[..] == FromBinaryString(binary);
    r := Some(Utf8.Decode(bytes[..]));
  }

  /** The payload `signSession` serialises: the caller's data with `exp` replaced. */
  function StampedPayload(data: SessionData, now: int): SessionData {
    data.(exp := Some(now + SessionLifetime))
  }

  /** The payload segment of a token signed at `now`. */
  function PayloadSegment(data: SessionData, now: int, ctx: Context): string {
    EncodeText(ctx.json.stringify(StampedPayload(data, now)))
  }

  /** The signature segment over a payload segment. */
  function SignatureSegment(payloadB64: string, ctx: Context): string {
    var signature := ctx.mac(SecretKey(ctx), Utf8.Encode(payloadB64));
    BtoaOfBytes(signature);
    Base64.Btoa(ToBinaryString(signature)).value
  }

  /** The signature segment is `.`-free base64 that `atob` reads back as the MAC's bytes. */
  lemma SignatureSegmentDecodes(payloadB64: string, ctx: Context)
    ensures '.' !in SignatureSegment(payloadB64, ctx)
    ensures Base64.Atob(SignatureSegment(payloadB64, ctx))
            == Some(ToBinaryString(ctx.mac(SecretKey(ctx), Utf8.Encode(payloadB64))))
  {
    var signature := ctx.mac(SecretKey(ctx), Utf8.Encode(payloadB64));
    BtoaOfBytes(signature);
    Base64.EncodeHasNoDot(signature);
    Base64.AtobBtoa(ToBinaryString(signature));
  }

  /** `signSession(data)` at time `now`: the payload segment, `.`, then the signature segment
      over the payload segment. Neither segment holds a `.`, so `split('.')` gives back exactly
      the two, and the second decodes to the MAC of the first. */
  function SignSession(data: SessionData, now: int, ctx: Context): (token: string)
    ensures var p := PayloadSegment(data, now, ctx);
            && Split(token, '.') == [p, SignatureSegment(p, ctx)]
            && Base64.Atob(SignatureSegment(p, ctx)) == Some(ToBinaryString(ctx.mac(SecretKey(ctx), Utf8.Encode(p))))
  {
    var payloadB64 := PayloadSegment(data, now, ctx);
    Base64.EncodeHasNoDot(Utf8.Encode(ctx.json.stringify(StampedPayload(data, now))));
    SignatureSegmentDecodes(payloadB64, ctx);
    SplitPair(payloadB64, '.', SignatureSegment(payloadB64, ctx));
    payloadB64 + "." + SignatureSegment(payloadB64, ctx)
  }

  /** `payload.exp && payload.exp < Date.now()`: a missing or zero `exp` is never expired. */
  predicate Expired(exp: Option<int>, now: int) {
    exp.Some? && exp.value != 0 && exp.value < now
  }

  /** The token's first two `.`-separated segments are non-empty and the second decodes to the
      MAC of the first: what `crypto.subtle.verify` accepts. */
  predicate Authentic(token: string, ctx: Context) {
    var parts := Split(token, '.');
    && |parts| >= 2 && parts[0] != [] && parts[1] != []
    && Base64.Atob(parts[1]).Some?
    && FromBinaryString(Base64.Atob(parts[1]).value) == ctx.mac(SecretKey(ctx), Utf8.Encode(parts[0]))
  }

  /** The payload the first segment carries, if it decodes and parses. */
  function CarriedPayload(token: string, ctx: Context): Option<SessionData> {
    match DecodeText(Split(token, '.')[0])
    case None => None
    case Some(text) => ctx.json.parse(text)
  }

  /** `verifySession(token)` at time `now`. Every exception (bad base64, bad JSON) is `None`,
      as the source's `catch` makes it. A token is accepted exactly when it is authentic, its
      payload parses, and it is not expired. */
  function VerifySession(token: string, now: int, ctx: Context): (r: Option<SessionData>)
    ensures r.Some? <==> Authentic(token, ctx) && CarriedPayload(token, ctx).Some?
                         && !Expired(CarriedPayload(token, ctx).value.exp, now)
    ensures r.Some? ==> r == CarriedPayload(token, ctx)
  {
    var parts := Split(token, '.');
    var payloadB64 := parts[0];
    if payloadB64 == [] || |parts| < 2 || parts[1] == [] then None
    else
      var sigB64 := parts[1];
      match Base64.Atob(sigB64)
      case None => None
      case Some(sigBinary) =>
        var signature := FromBinaryString(sigBinary);
        if signature != ctx.mac(SecretKey(ctx), Utf8.Encode(payloadB64)) then None
        else
          match DecodeText(payloadB64)
          case None => None
          case Some(text) =>
            match ctx.json.parse(text)
            case None => None
            case Some(payload) =>
              if Expired(payload.exp, now) then None else Some(payload)
  }

  /** Both segments of a signed token are non-empty base64 without `.`, so splitting the token
      on `.` recovers them exactly. */
  lemma TokenShape(data: SessionData, now: int, ctx: Context)
    requires NonEmptyText(ctx.json)
    ensures PayloadSegment(data, now, ctx) != []
    ensures |PayloadSegment(data, now, ctx)| % 4 == 0
    ensures '.' !in PayloadSegment(data, now, ctx)
    ensures '.' !in SignatureSegment(PayloadSegment(data, now, ctx), ctx)
    ensures Split(SignSession(data, now, ctx), '.')
            == [PayloadSegment(data, now, ctx), SignatureSegment(PayloadSegment(data, now, ctx), ctx)]
  {
    var text := ctx.json.stringify(StampedPayload(data, now));
    var p := PayloadSegment(data, now, ctx);
    var bytes := Utf8.Encode(text);
    assert bytes != [] by { assert bytes == Utf8.EncodeChar(text[0]) + Utf8.Encode(text[1..]); }
    Base64.EncodeShape(bytes);
    Base64.EncodeHasNoDot(bytes);
    assert p != [] by {
      if |bytes| >= 3 {
        assert Base64.Unpadded(bytes) == Base64.EncodeGroup(bytes[0], bytes[1], bytes[2]) + Base64.Unpadded(bytes[3..]);
      }
    }
    var signature := ctx.mac(SecretKey(ctx), Utf8.Encode(p));
    BtoaOfBytes(signature);
    Base64.EncodeHasNoDot(signature);
    var s := SignatureSegment(p, ctx);
    assert s == Base64.Encode(signature);
    SplitPair(p, '.', s);
  }

  /** The steps `verifySession` takes on a token whose segments are `p` and `s`, when all of
      them succeed up to the expiry check. */
  lemma VerifyWellFormed(token: string, p: string, s: string, text: string, payload: SessionData, now: int, ctx: Context)
    requires Split(token, '.') == [p, s] && p != [] && s != []
    requires Base64.Atob(s) == Some(ToBinaryString(ctx.mac(SecretKey(ctx), Utf8.Encode(p))))
    requires DecodeText(p) == Some(text) && ctx.json.parse(text) == Some(payload)
    ensures VerifySession(token, now, ctx) == if Expired(payload.exp, now) then None else Some(payload)
  {
    BinaryStringRoundTrip(ctx.mac(SecretKey(ctx), Utf8.Encode(p)));
  }

  /** The segments of a signed token decode to the stamped payload and its MAC. */
  lemma SignedSegments(data: SessionData, signedAt: int, ctx: Context)
    requires RoundTrips(ctx.json) && ObjectText(ctx.json) && MacTagLength(ctx.mac)
    ensures var p := PayloadSegment(data, signedAt, ctx);
            var s := SignatureSegment(p, ctx);
            && Split(SignSession(data, signedAt, ctx), '.') == [p, s] && p != [] && s != []
            && Base64.Atob(s) == Some(ToBinaryString(ctx.mac(SecretKey(ctx), Utf8.Encode(p))))
            && DecodeText(p) == Some(ctx.json.stringify(StampedPayload(data, signedAt)))
            && ctx.json.parse(ctx.json.stringify(StampedPayload(data, signedAt))) == Some(StampedPayload(data, signedAt))
  {
    var text := ctx.json.stringify(StampedPayload(data, signedAt));
    var p := PayloadSegment(data, signedAt, ctx);
    var signature := ctx.mac(SecretKey(ctx), Utf8.Encode(p));
    TokenShape(data, signedAt, ctx);
    BtoaOfBytes(signature);
    assert SignatureSegment(p, ctx) == Base64.Encode(signature);
    assert Base64.Encode(signature) != [] by {
      assert Base64.Unpadded(signature) == Base64.EncodeGroup(signature[0], signature[1], signature[2]) + Base64.Unpadded(signature[3..]);
    }
    Base64.AtobBtoa(ToBinaryString(signature));
    assert text != [] && text[0] == '{';
    DecodeEncodeText(text);
  }

  /** A signed token verifies until its expiry, with the caller's username and role and the
      stamped `exp`; the caller's own `exp` is overridden. */
  lemma VerifySignedSession(data: SessionData, signedAt: int, now: int, ctx: Context)
    requires RoundTrips(ctx.json) && ObjectText(ctx.json) && MacTagLength(ctx.mac)
    requires now <= signedAt + SessionLifetime
    ensures VerifySession(SignSession(data, signedAt, ctx), now, ctx)
            == Some(SessionData(data.username, data.role, Some(signedAt + SessionLifetime)))
  {
    var p := PayloadSegment(data, signedAt, ctx);
    SignedSegments(data, signedAt, ctx);
    VerifyWellFormed(SignSession(data, signedAt, ctx), p, SignatureSegment(p, ctx),
      ctx.json.stringify(StampedPayload(data, signedAt)), StampedPayload(data, signedAt), now, ctx);
  }

  /** Once the stamped expiry has passed, a signed token is rejected. */
  lemma SignedSessionExpires(data: SessionData, signedAt: int, now: int, ctx: Context)
    requires RoundTrips(ctx.json) && ObjectText(ctx.json) && MacTagLength(ctx.mac)
    requires signedAt >= 0 && now > signedAt + SessionLifetime
    ensures VerifySession(SignSession(data, signedAt, ctx), now, ctx) == None
  {
    var p := PayloadSegment(data, signedAt, ctx);
    SignedSegments(data, signedAt, ctx);
    VerifyWellFormed(SignSession(data, signedAt, ctx), p, SignatureSegment(p, ctx),
      ctx.json.stringify(StampedPayload(data, signedAt)), StampedPayload(data, signedAt), now, ctx);
  }

  /** A token without `.` is rejected. */
  lemma NoSeparatorRejected(token: string, now: int, ctx: Context)
    requires '.' !in token
    ensures VerifySession(token, now, ctx) == None
  {
    SplitNone(token, '.');
  }

  /** A token whose payload or signature segment is empty is rejected. */
  lemma EmptySegmentRejected(a: string, b: string, now: int, ctx: Context)
    requires '.' !in a
    requires a == [] || b == [] || b[0] == '.'
    ensures VerifySession(a + "." + b, now, ctx) == None
  {
    SplitFirst(a, '.', b);
    if b != [] && b[0] == '.' {
      assert b == [] + ['.'] + b[1..];
      SplitFirst([], '.', b[1..]);
    } else if b == [] {
      SplitNone(b, '.');
    }
  }

  /** HMAC as a function of the message is injective (collision resistance, idealised). */
  ghost predicate MacInjective(mac: (seq<uint8>, seq<uint8>) -> seq<uint8>) {
    forall k, m1, m2 :: mac(k, m1) == mac(k, m2) ==> m1 == m2
  }

  lemma Utf8Injective(a: string, b: string)
    requires Utf8.Encode(a) == Utf8.Encode(b)
    ensures a == b
  {
    Utf8.DecodeStreamEncode(a);
    Utf8.DecodeStreamEncode(b);
  }

  /** Replacing the payload segment of a signed token (to escalate the role, say) while keeping
      its signature segment makes it fail verification. */
  lemma TamperedPayloadRejected(data: SessionData, signedAt: int, forged: string, now: int, ctx: Context)
    requires MacInjective(ctx.mac) && NonEmptyText(ctx.json)
    requires '.' !in forged && forged != PayloadSegment(data, signedAt, ctx)
    ensures VerifySession(forged + "." + SignatureSegment(PayloadSegment(data, signedAt, ctx), ctx), now, ctx) == None
  {
    var p := PayloadSegment(data, signedAt, ctx);
    var s := SignatureSegment(p, ctx);
    var signature := ctx.mac(SecretKey(ctx), Utf8.Encode(p));
    TokenShape(data, signedAt, ctx);
    SplitPair(forged, '.', s);
    Base64.DecodeEncode(signature);
    BinaryStringRoundTrip(signature);
    if ctx.mac(SecretKey(ctx), Utf8.Encode(forged)) == signature {
      Utf8Injective(forged, p);
    }
  }

  /** A signature segment that does not decode to the MAC of the payload segment is rejected. */
  lemma BadSignatureRejected(a: string, b: string, now: int, ctx: Context)
    requires '.' !in a && '.' !in b
    requires Base64.Atob(b).None? || FromBinaryString(Base64.Atob(b).value) != ctx.mac(SecretKey(ctx), Utf8.Encode(a))
    ensures VerifySession(a + "." + b, now, ctx) == None
  {
    SplitPair(a, '.', b);
  }

  /** Only the first two segments are read: anything after a second `.` is ignored, so a
      valid token with `.x` appended still verifies. */
  lemma ExtraSegmentsIgnored(a: string, b: string, extra: string, now: int, ctx: Context)
    requires '.' !in a && '.' !in b
    ensures VerifySession(a + "." + b + "." + extra, now, ctx) == VerifySession(a + "." + b, now, ctx)
  {
    SplitPair(a, '.', b);
    assert a + "." + b + "." + extra == a + ['.'] + (b + ['.'] + extra);
    SplitFirst(a, '.', b + ['.'] + extra);
    SplitFirst(b, '.', extra);
  }

  /** The base64 text round trip of `base64Encode`/`base64Decode`, for every string that does
      not begin with U+FEFF (multi-byte characters included). */
  lemma DecodeEncodeText(str: string)
    requires str == [] || str[0] != Utf8.ByteOrderMark
    ensures DecodeText(EncodeText(str)) == Some(str)
  {
    Base64.DecodeEncode(Utf8.Encode(str));
    BinaryStringRoundTrip(Utf8.Encode(str));
    Utf8.DecodeEncode(str);
  }

  /** A leading U+FEFF does not survive the round trip: `TextDecoder` drops it as a byte-order mark. */
  lemma DecodeEncodeTextDropsBom(str: string)
    requires str != [] && str[0] == Utf8.ByteOrderMark
    ensures DecodeText(EncodeText(str)) == Some(str[1..])
  {
    Base64.DecodeEncode(Utf8.Encode(str));
    BinaryStringRoundTrip(Utf8.Encode(str));
    Utf8.DecodeEncodeDropsBom(str);
  }
}

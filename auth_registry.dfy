/** The GitHub login of `src/app/api/auth/callback/route.ts` and the logout of
    `src/app/api/auth/logout/route.ts`, which share the module-level `validTokens` map. The
    two GitHub calls are given by their outcomes, `Math.random` by the values it returns, and
    the clock by its reading. */
module AuthRegistry {
  import opened Wrappers

  /** The alphabet `generateToken` draws from. */
  const Alphabet := "ABCDEFGHIJKLMNOPQRSTUVWXYZabcdefghijklmnopqrstuvwxyz0123456789"
  const TokenLength := 64
  /** `7 * 24 * 60 * 60 * 1000`: how long a registered token lives, in milliseconds. */
  const LifetimeMs := 7 * 24 * 60 * 60 * 1000
  /** `7 * 24 * 60 * 60`: the cookie's `maxAge`, in seconds. */
  const CookieMaxAge := 7 * 24 * 60 * 60
  const DefaultSiteUrl := "http://localhost:3000"

  /** What `Math.random` promises: a number in [0, 1). */
  predicate RandomValue(x: real) {
    0.0 <= x < 1.0
  }

  /** `Math.floor(random * chars.length)`: the character one draw picks. */
  function Pick(x: real): (i: int)
    requires RandomValue(x)
    ensures 0 <= i < |Alphabet|
    ensures i as real <= x * |Alphabet| as real < i as real + 1.0
  {
    (x * |Alphabet| as real).Floor
  }

  /** `generateToken()` fed with the first 64 values of `randoms`: exactly 64 characters, each
      the alphabet character its draw picks. */
  method GenerateToken(randoms: seq<real>) returns (token: string)
    requires |randoms| >= TokenLength && forall i :: 0 <= i < |randoms| ==> RandomValue(randoms[i])
    ensures |token| == TokenLength
    ensures forall i :: 0 <= i < TokenLength ==> token[i] == Alphabet[Pick(randoms[i])]
    ensures forall i :: 0 <= i < |token| ==> token[i] in Alphabet
  {
    token := [];
    for i := 0 to TokenLength
      invariant |token| == i
      invariant forall k :: 0 <= k < i ==> token[k] == Alphabet[Pick(randoms[k])]
    {
      token := token + [Alphabet[Pick(randoms[i])]];
    }
  }

  /** A registered login: when it lapses and whose it is (`userData.login`, possibly absent). */
  datatype Entry = Entry(expiresAt: int, username: Option<string>)

  datatype Cookie = Cookie(name: string, value: string, maxAge: nat)

  /** A redirect, possibly setting a cookie. */
  datatype Redirect = Redirect(location: string, setCookie: Option<Cookie>)

  /** `NEXT_PUBLIC_SITE_URL || 'http://localhost:3000'`. */
  function SiteUrl(env: Option<string>): (url: string)
    ensures env.Some? && env.value != [] ==> url == env.value
    ensures env.None? || env.value == [] ==> url == DefaultSiteUrl
  {
    if env.Some? && env.value != [] then env.value else DefaultSiteUrl
  }

  /** The `GITHUB_ALLOWED_USER` gate: an empty setting admits every login, otherwise only that
      one. */
  predicate Admitted(allowedUser: string, login: Option<string>): (admitted: bool)
    ensures allowedUser == [] ==> admitted
    ensures allowedUser != [] ==> (admitted <==> login == Some(allowedUser))
  {
    allowedUser == [] || login == Some(allowedUser)
  }

  /** The response of the logout route: `{ success: true }` with `admin_token` deleted. */
  datatype LogoutResponse = LogoutResponse(success: bool, deletedCookie: string)

  /** The registry after a logout carrying `cookie`: a present, non-empty token is removed. */
  function AfterLogout(tokens: map<string, Entry>, cookie: Option<string>): (r: map<string, Entry>)
    ensures cookie.Some? && cookie.value != [] ==> cookie.value !in r
    ensures forall t :: t in r <==> t in tokens && (cookie.None? || cookie.value == [] || t != cookie.value)
    ensures forall t :: t in r ==> r[t] == tokens[t]
  {
    if cookie.Some? && cookie.value != [] then tokens - {cookie.value} else tokens
  }

  /** Logging out twice leaves the registry as logging out once does. */
  lemma LogoutIdempotent(tokens: map<string, Entry>, cookie: Option<string>)
    ensures AfterLogout(AfterLogout(tokens, cookie), cookie) == AfterLogout(tokens, cookie)
  {
    var once := AfterLogout(tokens, cookie);
    assert AfterLogout(once, cookie).Keys == once.Keys;
  }

  /** The shared `validTokens` map. */
  class Registry {
    var validTokens: map<string, Entry>

    constructor()
      ensures validTokens == map[]
    {
      validTokens := map[];
    }

    /** The callback `GET`. `code` is the query parameter; `exchanged` is the token exchange
        (`Err` when the request or its JSON fails, else the `access_token` field); `profile` is
        the user request (`Err` likewise, else the `login` field). A token is registered and
        set as the `admin_token` cookie only when every step succeeds and the login is
        admitted; on every other path the registry is unchanged. */
    method Callback(code: Option<string>, exchanged: Result<Option<string>>, profile: Result<Option<string>>,
                    allowedUser: string, siteUrlEnv: Option<string>, randoms: seq<real>, nowMs: int)
      returns (r: Redirect)
      requires |randoms| >= TokenLength && forall i :: 0 <= i < |randoms| ==> RandomValue(randoms[i])
      modifies this
      ensures code.None? || code.value == [] ==>
                r == Redirect(SiteUrl(siteUrlEnv) + "?error=no_code", None) && validTokens == old(validTokens)
      ensures code.Some? && code.value != [] && exchanged.Ok? && (exchanged.value.None? || exchanged.value.value == []) ==>
                r == Redirect(SiteUrl(siteUrlEnv) + "?error=token_failed", None) && validTokens == old(validTokens)
      ensures code.Some? && code.value != [] && (exchanged.Err? || (exchanged.value.Some? && exchanged.value.value != [] && profile.Err?)) ==>
                r == Redirect(SiteUrl(siteUrlEnv) + "?error=oauth_failed", None) && validTokens == old(validTokens)
      ensures code.Some? && code.value != [] && exchanged.Ok? && exchanged.value.Some? && exchanged.value.value != []
              && profile.Ok? && !Admitted(allowedUser, profile.value) ==>
                r == Redirect(SiteUrl(siteUrlEnv) + "?error=not_allowed", None) && validTokens == old(validTokens)
      ensures r.setCookie.Some? <==>
                code.Some? && code.value != [] && exchanged.Ok? && exchanged.value.Some? && exchanged.value.value != []
                && profile.Ok? && Admitted(allowedUser, profile.value)
      ensures r.setCookie.Some? ==>
                var token := r.setCookie.value.value;
                && r.location == SiteUrl(siteUrlEnv) + "?login=success"
                && r.setCookie.value.name == "admin_token"
                && |token| == TokenLength && (forall i :: 0 <= i < |token| ==> token[i] in Alphabet)
                && validTokens == old(validTokens)[token := Entry(nowMs + LifetimeMs, profile.value)]
                && r.setCookie.value.maxAge * 1000 == validTokens[token].expiresAt - nowMs
    {
      var siteUrl := SiteUrl(siteUrlEnv);
      if code.None? || code.value == [] {
        return Redirect(siteUrl + "?error=no_code", None);
      }
      if exchanged.Err? {
        return Redirect(siteUrl + "?error=oauth_failed", None);
      }
      if exchanged.value.None? || exchanged.value.value == [] {
        return Redirect(siteUrl + "?error=token_failed", None);
      }
      if profile.Err? {
        return Redirect(siteUrl + "?error=oauth_failed", None);
      }
      var username := profile.value;
      if allowedUser != [] && username != Some(allowedUser) {
        return Redirect(siteUrl + "?error=not_allowed", None);
      }
      var token := GenerateToken(randoms);
      var expiresAt := nowMs + LifetimeMs;
      validTokens := validTokens[token := Entry(expiresAt, username)];
      r := Redirect(siteUrl + "?login=success", Some(Cookie("admin_token", token, CookieMaxAge)));
    }

    /** The logout `POST` with the request's `admin_token` cookie, if any. */
    method Logout(cookie: Option<string>) returns (r: LogoutResponse)
      modifies this
      ensures validTokens == AfterLogout(old(validTokens), cookie)
      ensures r == LogoutResponse(true, "admin_token")
    {
      if cookie.Some? && cookie.value != [] {
        validTokens := validTokens - {cookie.value};
      }
      r := LogoutResponse(true, "admin_token");
    }
  }
}

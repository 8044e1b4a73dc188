/** The two signed texts of the protocol: return states and allow cookies. */
module Tokens {
  import opened GoTime
  import opened Bytes
  import opened Utf8
  import opened Wrappers
  import opened SafePath
  import opened ReturnPath
  import opened ReturnPathUtf8
  import opened SignedValue

  const TOKEN_VERSION: int := 1
  const RETURN_STATE_SECONDS: int := 900
  const RETURN_STATE_VALID_FOR: int := RETURN_STATE_SECONDS * NANOS_PER_SECOND
  const RETURN_STATE_CONTEXT: string := "caddy_protector:return_state:v1"
  const COOKIE_MAC_CONTEXT: string := "caddy_protector:cookie_mac:v1"

  datatype ReturnStateClaims = ReturnStateClaims(version: int, returnPath: Bytes, expiresAt: int)

  datatype AllowCookieClaims = AllowCookieClaims(version: int, issuedAt: int, expiresAt: int)

  // ---------------------------------------------------------------------------------
  // JSON objects of claims
  // ---------------------------------------------------------------------------------

  /** encoding/json repairs texts while encoding. */
  function StateJson(claims: ReturnStateClaims): Json {
    [Field("v", Number(claims.version)), Field("return_to", Text(ToValid(claims.returnPath))),
     Field("exp", Number(claims.expiresAt))]
  }

  function CookieJson(claims: AllowCookieClaims): Json {
    [Field("v", Number(claims.version)), Field("iat", Number(claims.issuedAt)), Field("exp", Number(claims.expiresAt))]
  }

  /** The last field of a name counts; unknown ones are never asked for. */
  function Lookup(json: Json, name: string): Option<Scalar> {
    if json == [] then None
    else if json[|json| - 1].name == name then Some(json[|json| - 1].value)
    else Lookup(json[..|json| - 1], name)
  }

  /** A number field: absent reads as 0, a text is an error. */
  function NumberField(json: Json, name: string): Option<int> {
    match Lookup(json, name)
    case None => Some(0)
    case Some(Number(n)) => Some(n)
    case Some(Text(_)) => None
  }

  function TextField(json: Json, name: string): Option<Bytes> {
    match Lookup(json, name)
    case None => Some([])
    case Some(Text(t)) => Some(t)
    case Some(Number(_)) => None
  }

  function StateFromJson(json: Json): Option<ReturnStateClaims> {
    match (NumberField(json, "v"), TextField(json, "return_to"), NumberField(json, "exp"))
    case (Some(v), Some(path), Some(exp)) => Some(ReturnStateClaims(v, path, exp))
    case _ => None
  }

  function CookieFromJson(json: Json): Option<AllowCookieClaims> {
    match (NumberField(json, "v"), NumberField(json, "iat"), NumberField(json, "exp"))
    case (Some(v), Some(iat), Some(exp)) => Some(AllowCookieClaims(v, iat, exp))
    case _ => None
  }

  /** Each kind reads its own JSON back, and misreads the other one with zero values. */
  lemma JsonRoundTrip(state: ReturnStateClaims, cookie: AllowCookieClaims)
    ensures ValidJson(StateJson(state)) && ValidJson(CookieJson(cookie))
    ensures StateFromJson(StateJson(state)) == Some(state.(returnPath := ToValid(state.returnPath)))
    ensures CookieFromJson(CookieJson(cookie)) == Some(cookie)
    ensures CookieFromJson(StateJson(state)) == Some(AllowCookieClaims(state.version, 0, state.expiresAt))
    ensures StateFromJson(CookieJson(cookie)) == Some(ReturnStateClaims(cookie.version, [], cookie.expiresAt))
    ensures StateJson(state) != CookieJson(cookie)
  {
    hide ToValid;
    ToValidIsValid(state.returnPath);
    Lookup3("v", Number(state.version), "return_to", Text(ToValid(state.returnPath)), "exp", Number(state.expiresAt));
    Lookup3("v", Number(cookie.version), "iat", Number(cookie.issuedAt), "exp", Number(cookie.expiresAt));
    assert StateJson(state)[1].name != CookieJson(cookie)[1].name;
  }

  lemma LookupAppend(json: Json, last: Field, name: string)
    ensures Lookup(json + [last], name) == if last.name == name then Some(last.value) else Lookup(json, name)
  {
    assert (json + [last])[..|json|] == json;
  }

  lemma Lookup3(a: string, x: Scalar, b: string, y: Scalar, c: string, z: Scalar)
    requires a != b && a != c && b != c
    ensures var json := [Field(a, x), Field(b, y), Field(c, z)];
            && Lookup(json, a) == Some(x) && Lookup(json, b) == Some(y) && Lookup(json, c) == Some(z)
            && forall other :: other != a && other != b && other != c ==> Lookup(json, other) == None
  {
    hide Lookup;
    var json := [Field(a, x), Field(b, y), Field(c, z)];
    assert [] + [Field(a, x)] + [Field(b, y)] + [Field(c, z)] == json;
    forall name
      ensures Lookup(json, name) ==
              if c == name then Some(z) else if b == name then Some(y) else if a == name then Some(x) else None
    {
      LookupAppend([] + [Field(a, x)] + [Field(b, y)], Field(c, z), name);
      LookupAppend([] + [Field(a, x)], Field(b, y), name);
      LookupAppend([], Field(a, x), name);
      LookupNothing(name);
    }
  }

  lemma LookupNothing(name: string)
    ensures Lookup([], name) == None
  {
  }

  // ---------------------------------------------------------------------------------
  // Configuration, signing and checking
  // ---------------------------------------------------------------------------------

  datatype Config = Config(pr: Primitives, returnStateMACKey: Bytes, cookieMACKey: Bytes, allowFor: int)

  /** Validate derives both keys from the one secret, each under its own context. */
  function Validated(pr: Primitives, capSecretKey: Bytes, allowFor: int): Option<Config> {
    if allowFor <= 0 then None
    else
      Some(Config(pr, pr.deriveKey(RETURN_STATE_CONTEXT, capSecretKey),
                  pr.deriveKey(COOKIE_MAC_CONTEXT, capSecretKey), allowFor))
  }

  ghost predicate Usable(cfg: Config) {
    && Lawful(cfg.pr)
    && |cfg.returnStateMACKey| == KEY_LENGTH && |cfg.cookieMACKey| == KEY_LENGTH
  }

  /** A configuration as Validate leaves it, for a derivation that separates contexts. */
  ghost predicate KeysSeparated(cfg: Config) {
    Usable(cfg) && cfg.returnStateMACKey != cfg.cookieMACKey
  }

  /**
   * What Validate leaves has one key derived under each context, both usable, and separated
   * exactly when the derivation separates the two contexts.
   */
  lemma ValidatedKeys(pr: Primitives, capSecretKey: Bytes, allowFor: int)
    requires Lawful(pr)
    ensures Validated(pr, capSecretKey, allowFor).Some? <==> allowFor > 0
    ensures allowFor > 0 ==>
              var cfg := Validated(pr, capSecretKey, allowFor).value;
              && cfg.pr == pr && cfg.allowFor == allowFor
              && cfg.returnStateMACKey == pr.deriveKey("caddy_protector:return_state:v1", capSecretKey)
              && cfg.cookieMACKey == pr.deriveKey("caddy_protector:cookie_mac:v1", capSecretKey)
              && Usable(cfg) && (KeysSeparated(cfg) <==> cfg.returnStateMACKey != cfg.cookieMACKey)
  {
  }

  function CreateReturnState(cfg: Config, returnPath: Bytes, now: int): Result<string, SignError> {
    SignValue(cfg.pr,
              StateJson(ReturnStateClaims(TOKEN_VERSION, SafeReturnPathFrom(returnPath),
                Unix(now + RETURN_STATE_VALID_FOR))),
              cfg.returnStateMACKey)
  }

  datatype StateError = Unverified | WrongVersion | Expired | BadReturnPath

  function VerifyReturnState(cfg: Config, raw: string, now: int): Result<ReturnStateClaims, StateError> {
    match VerifySignedValue(cfg.pr, raw, cfg.returnStateMACKey)
    case Failure(_) => Failure(Unverified)
    case Success(json) =>
      match StateFromJson(json)
      case None => Failure(Unverified)
      case Some(claims) =>
        if claims.version != TOKEN_VERSION then Failure(WrongVersion)
        else if claims.expiresAt <= Unix(now) then Failure(Expired)
        else if claims.returnPath == [] || (SafeReturnPathFrom(claims.returnPath) == [SLASH]
          && claims.returnPath != [SLASH])
        then Failure(BadReturnPath)
        else Success(claims)
  }

  /** The value writeAllowCookie puts into the cookie. */
  function AllowCookieValue(cfg: Config, now: int): Result<string, SignError> {
    SignValue(cfg.pr, CookieJson(AllowCookieClaims(TOKEN_VERSION, Unix(now), Unix(now + cfg.allowFor))),
      cfg.cookieMACKey)
  }

  predicate HasValidAllowCookie(cfg: Config, cookie: Option<string>, now: int) {
    cookie.Some? &&
    match VerifySignedValue(cfg.pr, cookie.value, cfg.cookieMACKey)
    case Failure(_) => false
    case Success(json) =>
      match CookieFromJson(json)
      case None => false
      case Some(claims) =>
        claims.version == TOKEN_VERSION && claims.expiresAt > Unix(now) && claims.issuedAt <= Unix(now)
  }

  // ---------------------------------------------------------------------------------
  // Round trips
  // ---------------------------------------------------------------------------------

  /**
   * A return state made at s is accepted at t exactly when whole seconds of t are before
   * those of s plus 15 minutes, for every path; its target is the safe path with its UTF-8
   * repaired, and handleVerify's second cleaning leaves that alone. The path check rejects
   * no state the server made.
   */
  lemma ReturnStateRoundTrip(cfg: Config, p: Bytes, s: int, t: int)
    requires Usable(cfg)
    ensures var raw := CreateReturnState(cfg, p, s);
            && raw.Success?
            && var result := VerifyReturnState(cfg, raw.value, t);
               && (result.Success? <==> Unix(t) < Unix(s) + 900)
               && (result.Failure? ==> result.error == Expired)
               && (result.Success? ==>
                     && result.value.returnPath == ToValid(SafeReturnPathFrom(p))
                     && SafeReturnPathFrom(result.value.returnPath) == result.value.returnPath)
  {
    hide ToValid, SafeReturnPathFrom, SignValue, VerifySignedValue, NumberField, TextField;
    var claims := ReturnStateClaims(TOKEN_VERSION, SafeReturnPathFrom(p), Unix(s + RETURN_STATE_VALID_FOR));
    JsonRoundTrip(claims, AllowCookieClaims(0, 0, 0));
    SignedValueRoundTrip(cfg.pr, StateJson(claims), cfg.returnStateMACKey);
    RepairedAnswerIsStable(p);
    UnixOfWholeSeconds(s, RETURN_STATE_SECONDS);
  }

  /**
   * The browser is sent back to exactly the safe path of the request precisely when that
   * path is valid UTF-8: otherwise JSON has replaced the offending bytes on the way.
   */
  lemma ReturnTargetExactWhenValid(cfg: Config, p: Bytes, s: int, t: int)
    requires Usable(cfg) && Unix(t) < Unix(s) + RETURN_STATE_SECONDS
    ensures var raw := CreateReturnState(cfg, p, s);
            && raw.Success? && VerifyReturnState(cfg, raw.value, t).Success?
            && (SafeReturnPathFrom(VerifyReturnState(cfg, raw.value, t).value.returnPath) == SafeReturnPathFrom(p)
                <==> IsValid(SafeReturnPathFrom(p)))
  {
    ReturnStateRoundTrip(cfg, p, s, t);
    ToValidFixesValid(SafeReturnPathFrom(p));
  }

  /** A root path with any query is in normal form. */
  lemma RootQueryIsSafe(query: Bytes)
    requires query != [] && query[0] == QUERY
    ensures SafeReturnPathFrom([SLASH] + query) == [SLASH] + query
  {
    hide Segments, Resolve, SafeReturnPathFrom;
    PartsOfPath([SLASH], query);
    assert [SLASH][1..] == [];
    EmptyPathResolves();
    FixedExactlyWhenNormal([SLASH] + query);
  }

  lemma StrayByte()
    ensures ToValid([0xFF]) == REPLACEMENT
  {
    assert ToValid([0xFF]) == REPLACEMENT + ToValid([]);
    assert ToValid([]) == [];
  }

  /** The stray byte 0xFF in a query comes back as the three bytes of U+FFFD. */
  lemma InvalidQueryIsRepaired()
    ensures var p := [SLASH] + [QUERY, 0xFF];
            SafeReturnPathFrom(p) == p && ToValid(p) == [SLASH, QUERY] + REPLACEMENT != p
  {
    hide ToValid, SafeReturnPathFrom;
    RootQueryIsSafe([QUERY, 0xFF]);
    StrayByte();
    ToValidOfAscii(QUERY, [0xFF]);
    ToValidOfAscii(SLASH, [QUERY, 0xFF]);
    assert [QUERY] + [0xFF] == [QUERY, 0xFF];
    assert [SLASH] + ([QUERY] + REPLACEMENT) == [SLASH, QUERY] + REPLACEMENT;
    assert ([SLASH, QUERY] + REPLACEMENT)[2] != ([SLASH] + [QUERY, 0xFF])[2];
  }

  /** A cookie set at s is honoured at t exactly from the second of s to the second of s + AllowFor. */
  lemma AllowCookieRoundTrip(cfg: Config, s: int, t: int)
    requires Usable(cfg)
    ensures var raw := AllowCookieValue(cfg, s);
            && raw.Success?
            && (HasValidAllowCookie(cfg, Some(raw.value), t) <==> Unix(s) <= Unix(t) < Unix(s + cfg.allowFor))
  {
    hide SignValue, VerifySignedValue, NumberField, TextField;
    var claims := AllowCookieClaims(TOKEN_VERSION, Unix(s), Unix(s + cfg.allowFor));
    JsonRoundTrip(ReturnStateClaims(0, [], 0), claims);
    SignedValueRoundTrip(cfg.pr, CookieJson(claims), cfg.cookieMACKey);
  }

  // ---------------------------------------------------------------------------------
  // Why the two keys must differ
  // ---------------------------------------------------------------------------------

  /**
   * Under one shared key every return state would pass as an allow cookie until it expires:
   * its missing "iat" reads as 0. No cookie would pass as a return state even then.
   */
  lemma SharedKeyMixesKinds(cfg: Config, p: Bytes, s: int, t: int)
    requires Usable(cfg) && cfg.returnStateMACKey == cfg.cookieMACKey
    ensures var state := CreateReturnState(cfg, p, s);
            state.Success? &&
            (HasValidAllowCookie(cfg, Some(state.value), t) <==> 0 <= Unix(t) < Unix(s) + RETURN_STATE_SECONDS)
    ensures var cookie := AllowCookieValue(cfg, s);
            cookie.Success? && VerifyReturnState(cfg, cookie.value, t).Failure?
  {
    hide ToValid, SafeReturnPathFrom, SignValue, VerifySignedValue, NumberField, TextField;
    var state := ReturnStateClaims(TOKEN_VERSION, SafeReturnPathFrom(p), Unix(s + RETURN_STATE_VALID_FOR));
    var cookie := AllowCookieClaims(TOKEN_VERSION, Unix(s), Unix(s + cfg.allowFor));
    JsonRoundTrip(state, cookie);
    SignedValueRoundTrip(cfg.pr, StateJson(state), cfg.returnStateMACKey);
    SignedValueRoundTrip(cfg.pr, CookieJson(cookie), cfg.cookieMACKey);
    UnixOfWholeSeconds(s, RETURN_STATE_SECONDS);
  }
}

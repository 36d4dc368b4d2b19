/**
 * Bearer-token verification: decoding a token with the one configured
 * algorithm and extracting the caller's identity from its claims.
 */
module Security {
  import opened Wrappers
  import opened Uuids
  import opened Exceptions
  import Jwt

  /** The only algorithm tokens are verified with. */
  const ALGORITHM := "HS256"

  /** `TokenPayload`: the validated claims; `exp` and `iat` are POSIX seconds. */
  datatype TokenPayload = TokenPayload(sub: string, email: Option<string>, exp: Option<int>, iat: Option<int>)

  /** `AuthenticatedUser`: the identity a verified token carries. */
  datatype AuthenticatedUser = AuthenticatedUser(id: Uuid, email: Option<string>)

  /** A claim for an `Optional[str]` field: `Some(v)` when it validates to `v`, `None` when it does not. */
  function OptionalText(claims: Jwt.Claims, key: string): Option<Option<string>> {
    if key !in claims || claims[key].Null? then Some(None)
    else if claims[key].Str? then Some(Some(claims[key].s))
    else None
  }

  /** A claim for an `Optional[datetime]` field, given as POSIX seconds. */
  function OptionalTime(claims: Jwt.Claims, key: string): Option<Option<int>> {
    if key !in claims || claims[key].Null? then Some(None)
    else if claims[key].Int? then Some(Some(claims[key].n))
    else None
  }

  /**
   * `TokenPayload(**claims)`: `sub` must be a string, `email` a string or
   * absent, `exp` and `iat` integers or absent; other claims are ignored.
   */
  function ValidatePayload(claims: Jwt.Claims): (r: Option<TokenPayload>)
    ensures r.Some? <==>
      "sub" in claims && claims["sub"].Str? &&
      OptionalText(claims, "email").Some? && OptionalTime(claims, "exp").Some? && OptionalTime(claims, "iat").Some?
    ensures r.Some? ==> r.value.sub == claims["sub"].s && r.value.email == OptionalText(claims, "email").value
    ensures r.Some? ==> r.value.exp == OptionalTime(claims, "exp").value && r.value.iat == OptionalTime(claims, "iat").value
  {
    if "sub" !in claims || !claims["sub"].Str? then None
    else match (OptionalText(claims, "email"), OptionalTime(claims, "exp"), OptionalTime(claims, "iat"))
      case (Some(email), Some(exp), Some(iat)) => Some(TokenPayload(claims["sub"].s, email, exp, iat))
      case _ => None
  }

  /**
   * `decode_token(token)`: `None` for every token `jwt.decode` rejects. A
   * correctly signed, unexpired token whose claims fail `TokenPayload`
   * validation raises, because the handlers catch only jwt exceptions.
   */
  function DecodeToken(token: Jwt.Token, secret: string, now: int): (r: Outcome<Option<TokenPayload>>)
    ensures Jwt.Decode(token, secret, [ALGORITHM], now).Err? ==> r == Return(None)
    ensures r.Raise? <==>
      Jwt.Decode(token, secret, [ALGORITHM], now).Ok? && ValidatePayload(token.claims).None?
    ensures r.Raise? ==> r.exception == ValidationError
    ensures Jwt.Decode(token, secret, [ALGORITHM], now).Ok? && ValidatePayload(token.claims).Some? ==>
      r == Return(ValidatePayload(token.claims))
    ensures r.Return? && r.value.Some? ==>
      token.Compact? && token.alg == ALGORITHM && token.signature == Jwt.Hmac(ALGORITHM, secret, token.claims) &&
      r.value == ValidatePayload(token.claims)
  {
    match Jwt.Decode(token, secret, [ALGORITHM], now)
    case Err(_) => Return(None)
    case Ok(claims) =>
      match ValidatePayload(claims)
      case None => Raise(ValidationError)
      case Some(payload) => Return(Some(payload))
  }

  /**
   * `get_user_from_token(token)`: the identity `{id = UUID(sub), email}` of a
   * token `decode_token` accepts, `None` when it rejects the token or `sub`
   * is not a UUID; an exception from `decode_token` passes through.
   */
  function GetUserFromToken(token: Jwt.Token, secret: string, now: int): (r: Outcome<Option<AuthenticatedUser>>)
    ensures DecodeToken(token, secret, now) == Return(None) ==> r == Return(None)
    ensures DecodeToken(token, secret, now).Raise? <==> r.Raise?
    ensures r.Raise? ==> r == Raise(DecodeToken(token, secret, now).exception)
    ensures r.Return? && r.value.Some? <==>
      DecodeToken(token, secret, now).Return? && DecodeToken(token, secret, now).value.Some? &&
      Parse(DecodeToken(token, secret, now).value.value.sub).Some?
    ensures r.Return? && r.value.Some? ==>
      var payload := DecodeToken(token, secret, now).value.value;
      r.value.value == AuthenticatedUser(Parse(payload.sub).value, payload.email)
  {
    match DecodeToken(token, secret, now)
    case Raise(e) => Raise(e)
    case Return(None) => Return(None)
    case Return(Some(payload)) =>
      match Parse(payload.sub)
      case None => Return(None)
      case Some(id) => Return(Some(AuthenticatedUser(id, payload.email)))
  }

  /** Only tokens whose header says HS256 and whose signature is the secret's HS256 tag yield an identity. */
  lemma IdentityOnlyFromHs256(token: Jwt.Token, secret: string, now: int)
    requires GetUserFromToken(token, secret, now).Return? && GetUserFromToken(token, secret, now).value.Some?
    ensures token.Compact? && token.alg == "HS256"
    ensures token.signature == Jwt.Hmac("HS256", secret, token.claims)
  {
  }

  /** An expired token yields no identity, even when correctly signed. */
  lemma ExpiredTokenYieldsNone(token: Jwt.Token, secret: string, now: int)
    requires token.Compact? && "exp" in token.claims && token.claims["exp"].Int? && token.claims["exp"].n <= now
    ensures GetUserFromToken(token, secret, now) == Return(None)
  {
  }

  /** A token signed under another secret yields no identity. */
  lemma OtherSecretYieldsNone(claims: Jwt.Claims, key: string, secret: string, alg: string, now: int)
    requires key != secret
    ensures GetUserFromToken(Jwt.Encode(claims, key, alg), secret, now) == Return(None)
  {
  }
}

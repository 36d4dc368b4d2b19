/**
 * The bearer-credential gate in front of the protected routes. `credentials`
 * is the token from an `Authorization: Bearer <token>` header, or `None` when
 * the request carries no bearer credentials.
 */
module Middleware {
  import opened Wrappers
  import opened Responses
  import opened Exceptions
  import opened Security
  import Jwt

  /** The challenge of section 3 of RFC 6750 sent with every 401 of this gate. */
  const BearerChallenge: map<string, string> := map["WWW-Authenticate" := "Bearer"]

  const AuthenticationRequired: Exception :=
    HTTPException(HTTP_401_UNAUTHORIZED, ErrorDetail("AUTHENTICATION_REQUIRED", "Authentication required"), BearerChallenge)

  const InvalidToken: Exception :=
    HTTPException(HTTP_401_UNAUTHORIZED, ErrorDetail("INVALID_TOKEN", "Invalid or expired token"), BearerChallenge)

  /**
   * `get_current_user(credentials)`: 401 `AUTHENTICATION_REQUIRED` without
   * credentials, 401 `INVALID_TOKEN` for a token that yields no identity,
   * otherwise the verified identity unchanged.
   */
  function GetCurrentUser(credentials: Option<Jwt.Token>, secret: string, now: int): (r: Outcome<AuthenticatedUser>)
    ensures credentials.None? ==> r == Raise(AuthenticationRequired)
    ensures credentials.Some? && GetUserFromToken(credentials.value, secret, now) == Return(None) ==>
      r == Raise(InvalidToken)
    ensures r.Return? <==>
      credentials.Some? && GetUserFromToken(credentials.value, secret, now).Return? &&
      GetUserFromToken(credentials.value, secret, now).value.Some?
    ensures r.Return? ==> Return(Some(r.value)) == GetUserFromToken(credentials.value, secret, now)
    ensures credentials.Some? && GetUserFromToken(credentials.value, secret, now).Raise? ==>
      r == Raise(GetUserFromToken(credentials.value, secret, now).exception)
    ensures r.Raise? && r.exception.HTTPException? ==>
      r.exception.status == HTTP_401_UNAUTHORIZED && r.exception.headers == BearerChallenge
  {
    match credentials
    case None => Raise(AuthenticationRequired)
    case Some(token) =>
      match GetUserFromToken(token, secret, now)
      case Raise(e) => Raise(e)
      case Return(None) => Raise(InvalidToken)
      case Return(Some(user)) => Return(user)
  }

  /**
   * `get_optional_user(credentials)`: no identity without credentials,
   * otherwise exactly what `get_user_from_token` gives, which raises only
   * when `decode_token` does.
   */
  function GetOptionalUser(credentials: Option<Jwt.Token>, secret: string, now: int): (r: Outcome<Option<AuthenticatedUser>>)
    ensures credentials.None? ==> r == Return(None)
    ensures credentials.Some? ==> r == GetUserFromToken(credentials.value, secret, now)
    ensures r.Raise? <==> credentials.Some? && DecodeToken(credentials.value, secret, now).Raise?
  {
    match credentials
    case None => Return(None)
    case Some(token) => GetUserFromToken(token, secret, now)
  }

  /** The two gates agree on every identity they accept. */
  lemma OptionalAgreesWithRequired(credentials: Option<Jwt.Token>, secret: string, now: int)
    ensures GetCurrentUser(credentials, secret, now).Return? ==>
      GetOptionalUser(credentials, secret, now) == Return(Some(GetCurrentUser(credentials, secret, now).value))
    ensures GetOptionalUser(credentials, secret, now).Return? && GetOptionalUser(credentials, secret, now).value.Some? ==>
      GetCurrentUser(credentials, secret, now) == Return(GetOptionalUser(credentials, secret, now).value.value)
  {
  }
}

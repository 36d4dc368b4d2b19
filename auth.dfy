/**
 * The sign-up and sign-in endpoints over the in-memory user store, with
 * password hashing and access-token issue. The clock, the fresh user id and
 * the bcrypt salt are parameters.
 */
module Auth {
  import opened Wrappers
  import opened Text
  import opened Uuids
  import opened Responses
  import opened Exceptions
  import opened Security
  import opened UserModels
  import Jwt
  import Bcrypt

  /** Seven days, in seconds: how long an access token stays valid. */
  const TOKEN_LIFETIME := 7 * 24 * 60 * 60

  /** Sign-up with an email that is already registered (case ignored): 400. */
  const DuplicateEmail: Exception :=
    HTTPException(HTTP_400_BAD_REQUEST, ErrorDetail("DUPLICATE_EMAIL", "Email already registered"), map[])

  /** Sign-in with an unknown email or a wrong password; both raise this same 401. */
  const InvalidCredentials: Exception :=
    HTTPException(HTTP_401_UNAUTHORIZED, ErrorDetail("INVALID_CREDENTIALS", "Invalid email or password"), map[])

  const SIGNUP_MESSAGE := "User created successfully"

  /** An entry of `users_db`: the id as `str(uuid4())`, the lower-cased email, and the bcrypt digest of the password. */
  datatype UserRecord = UserRecord(id: string, email: string, name: string, hashedPassword: Bcrypt.Digest, createdAt: int)

  /** The sign-up reply `{"message": ..., "user_id": ...}`. */
  datatype SignupReply = SignupReply(message: string, userId: string)

  /** `hash_password(password)`, drawing `salt`. */
  function HashPassword(password: string, salt: Bcrypt.Salt): (d: Bcrypt.Digest)
    ensures Bcrypt.Verify(password, d)
    ensures d.salt == salt
  {
    Bcrypt.VerifyHash(password, salt);
    Bcrypt.Hash(password, salt)
  }

  /** `verify_password(plain, hashed)`: accepts exactly a password that hashes to `hashed` under its own salt. */
  function VerifyPassword(plain: string, hashed: Bcrypt.Digest): (ok: bool)
    ensures ok <==> Bcrypt.Hash(plain, hashed.salt) == hashed
  {
    Bcrypt.Verify(plain, hashed)
  }

  /**
   * `create_access_token(user_id, email, name)` at time `now`: an HS256
   * token under `secret` whose claims validate as a `TokenPayload` with
   * `sub` the user id, the email, and `exp` seven days after `iat == now`.
   */
  function CreateAccessToken(userId: string, email: string, name: string, secret: string, now: int): (t: Jwt.Token)
    ensures t.Compact? && t.alg == ALGORITHM
    ensures t.signature == Jwt.Hmac(ALGORITHM, secret, t.claims)
    ensures "name" in t.claims && t.claims["name"] == Jwt.Str(name)
    ensures t.claims.Keys == {"sub", "email", "name", "exp", "iat"}
    ensures ValidatePayload(t.claims) == Some(TokenPayload(userId, Some(email), Some(now + TOKEN_LIFETIME), Some(now)))
  {
    var claims := map[
      "sub" := Jwt.Str(userId),
      "email" := Jwt.Str(email),
      "name" := Jwt.Str(name),
      "exp" := Jwt.Int(now + TOKEN_LIFETIME),
      "iat" := Jwt.Int(now)];
    Jwt.Encode(claims, secret, ALGORITHM)
  }

  /** From its issue on, a token verifies under the same secret exactly until seven days after issue. */
  lemma TokenValidForSevenDays(userId: string, email: string, name: string, secret: string, issuedAt: int, now: int)
    requires issuedAt <= now
    ensures Jwt.Decode(CreateAccessToken(userId, email, name, secret, issuedAt), secret, [ALGORITHM], now).Ok?
      <==> now < issuedAt + TOKEN_LIFETIME
  {
  }

  /**
   * Within its lifetime, a token issued for the user id `str(u)` resolves to
   * the identity `u` with the email it was issued for.
   */
  lemma IssuedTokenIdentifiesUser(u: Uuid, email: string, name: string, secret: string, issuedAt: int, now: int)
    requires issuedAt <= now < issuedAt + TOKEN_LIFETIME
    ensures GetUserFromToken(CreateAccessToken(Format(u), email, name, secret, issuedAt), secret, now)
      == Return(Some(AuthenticatedUser(u, Some(email))))
  {
    ParseFormat(u);
  }

  /** From seven days after issue on, a token resolves to no identity. */
  lemma IssuedTokenExpires(u: Uuid, email: string, name: string, secret: string, issuedAt: int, now: int)
    requires issuedAt + TOKEN_LIFETIME <= now
    ensures GetUserFromToken(CreateAccessToken(Format(u), email, name, secret, issuedAt), secret, now) == Return(None)
  {
    ExpiredTokenYieldsNone(CreateAccessToken(Format(u), email, name, secret, issuedAt), secret, now);
  }

  /** The entry sign-up stores for `data`. */
  function NewUserRecord(data: UserCreate, id: Uuid, salt: Bcrypt.Salt, now: int): (u: UserRecord)
    ensures u.id == Format(id) && u.email == Lower(data.email) && u.name == data.name && u.createdAt == now
    ensures VerifyPassword(data.password, u.hashedPassword)
  {
    UserRecord(Format(id), Lower(data.email), data.name, HashPassword(data.password, salt), now)
  }

  /** `users_db`: registered users keyed by lower-cased email. */
  class UserStore {
    var users: map<string, UserRecord>

    /** Every entry is keyed by its own email, in lower case, and its id is the text of a UUID. */
    ghost predicate Valid()
      reads this
    {
      forall e :: e in users ==> users[e].email == e && IsLower(e) && Parse(users[e].id).Some?
    }

    constructor ()
      ensures Valid() && users == map[]
    {
      users := map[];
    }

    /**
     * `POST /auth/signup`: registers the user under the lower-cased email
     * with a fresh id and the hashed password, unless that email is taken
     * in any letter case.
     */
    method Signup(data: UserCreate, newId: Uuid, salt: Bcrypt.Salt, now: int) returns (r: Outcome<SignupReply>)
      requires Valid()
      modifies this
      ensures Valid()
      ensures !data.Valid() ==> r == Raise(RequestValidationError) && users == old(users)
      ensures data.Valid() && Lower(data.email) in old(users) ==> r == Raise(DuplicateEmail) && users == old(users)
      ensures data.Valid() && Lower(data.email) !in old(users) ==>
        && users == old(users)[Lower(data.email) := NewUserRecord(data, newId, salt, now)]
        && r == Return(SignupReply(SIGNUP_MESSAGE, Format(newId)))
    {
      if !data.Valid() {
        return Raise(RequestValidationError);
      }
      var emailLower := Lower(data.email);
      if emailLower in users {
        return Raise(DuplicateEmail);
      }
      var userId := Format(newId);
      LowerMapsEachChar(data.email);
      ParseFormat(newId);
      users := users[emailLower := NewUserRecord(data, newId, salt, now)];
      r := Return(SignupReply(SIGNUP_MESSAGE, userId));
    }

    /**
     * `POST /auth/signin`: a bearer token and the public view of the user
     * whose lower-cased email and password match; the same 401 for an
     * unknown email and for a wrong password. Building `UserResponse` parses
     * the stored id, which cannot fail in a valid store.
     */
    function Signin(credentials: UserLogin, secret: string, now: int): (r: Outcome<TokenResponse>)
      reads this
      ensures !credentials.Valid() ==> r == Raise(RequestValidationError)
      ensures credentials.Valid() ==>
        (r == Raise(InvalidCredentials) <==>
          !(Lower(credentials.email) in users && VerifyPassword(credentials.password, users[Lower(credentials.email)].hashedPassword)))
      ensures r.Return? ==>
        && Lower(credentials.email) in users
        && var u := users[Lower(credentials.email)];
        && VerifyPassword(credentials.password, u.hashedPassword)
        && Parse(u.id).Some?
        && r.value == TokenResponse(CreateAccessToken(u.id, u.email, u.name, secret, now), DEFAULT_TOKEN_TYPE,
                                    UserResponse(Parse(u.id).value, u.email, u.name))
      ensures Valid() ==> r.Return? || r == Raise(RequestValidationError) || r == Raise(InvalidCredentials)
    {
      if !credentials.Valid() then Raise(RequestValidationError)
      else
        var emailLower := Lower(credentials.email);
        if emailLower !in users then Raise(InvalidCredentials)
        else
          var u := users[emailLower];
          if !VerifyPassword(credentials.password, u.hashedPassword) then Raise(InvalidCredentials)
          else
            var token := CreateAccessToken(u.id, u.email, u.name, secret, now);
            match Parse(u.id)
            case Some(id) => Return(TokenResponse(token, DEFAULT_TOKEN_TYPE, UserResponse(id, u.email, u.name)))
            case None => Raise(ValidationError)
    }
  }

  /** Sign-in looks the user up by lower-cased email, so emails differing only in letter case sign in alike. */
  lemma SigninIgnoresCase(store: UserStore, e1: string, e2: string, password: string, secret: string, now: int)
    requires store.Valid()
    requires Lower(e1) == Lower(e2)
    ensures store.Signin(UserLogin(e1, password), secret, now) == store.Signin(UserLogin(e2, password), secret, now)
  {
    LowerKeepsEmail(e1);
    LowerKeepsEmail(e2);
  }

  /**
   * A user signed up with `data` signs in with the same password under any
   * letter case of the email, and receives a token for their id and
   * `UserResponse` with the id that sign-up returned.
   */
  lemma RegisteredUserSignsIn(store: UserStore, data: UserCreate, newId: Uuid, salt: Bcrypt.Salt, createdAt: int,
                              loginEmail: string, secret: string, now: int)
    requires store.Valid()
    requires Lower(data.email) in store.users && store.users[Lower(data.email)] == NewUserRecord(data, newId, salt, createdAt)
    requires IsEmail(loginEmail) && Lower(loginEmail) == Lower(data.email)
    ensures store.Signin(UserLogin(loginEmail, data.password), secret, now) ==
      Return(TokenResponse(CreateAccessToken(Format(newId), Lower(data.email), data.name, secret, now), DEFAULT_TOKEN_TYPE,
                           UserResponse(newId, Lower(data.email), data.name)))
  {
    ParseFormat(newId);
  }

  /** Any other password is refused with the same error as an unknown email. */
  lemma WrongPasswordRefused(store: UserStore, data: UserCreate, newId: Uuid, salt: Bcrypt.Salt, createdAt: int,
                             password: string, secret: string, now: int)
    requires store.Valid() && data.Valid()
    requires Lower(data.email) in store.users && store.users[Lower(data.email)] == NewUserRecord(data, newId, salt, createdAt)
    requires password != data.password
    ensures store.Signin(UserLogin(data.email, password), secret, now) == Raise(InvalidCredentials)
  {
  }

  /** The sign-in token a registered user receives identifies them to the task routes for seven days. */
  lemma SigninTokenAuthenticates(store: UserStore, data: UserCreate, newId: Uuid, salt: Bcrypt.Salt, createdAt: int,
                                 secret: string, issuedAt: int, now: int)
    requires store.Valid() && data.Valid()
    requires Lower(data.email) in store.users && store.users[Lower(data.email)] == NewUserRecord(data, newId, salt, createdAt)
    requires issuedAt <= now < issuedAt + TOKEN_LIFETIME
    ensures store.Signin(UserLogin(data.email, data.password), secret, issuedAt).Return?
    ensures GetUserFromToken(store.Signin(UserLogin(data.email, data.password), secret, issuedAt).value.accessToken, secret, now)
      == Return(Some(AuthenticatedUser(newId, Some(Lower(data.email)))))
  {
    RegisteredUserSignsIn(store, data, newId, salt, createdAt, data.email, secret, issuedAt);
    IssuedTokenIdentifiesUser(newId, Lower(data.email), data.name, secret, issuedAt, now);
  }
}

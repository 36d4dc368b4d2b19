/** The request and response records of the sign-up and sign-in endpoints, with their field constraints. */
module UserModels {
  import opened Uuids
  import Jwt
  import opened Text

  /** The number of times `c` occurs in `s`. */
  function CountChar(s: string, c: char): nat
    decreases |s|
  {
    if s == [] then 0 else (if s[0] == c then 1 else 0) + CountChar(s[1..], c)
  }

  /**
   * A stand-in for pydantic's `EmailStr`: exactly one `@`, with text on both
   * sides of it.
   */
  predicate IsEmail(s: string) {
    CountChar(s, '@') == 1 && |s| >= 3 && s[0] != '@' && s[|s| - 1] != '@'
  }

  /** Lower-casing changes no `@`, so it keeps a text an email or a non-email. */
  lemma {:induction false} LowerKeepsEmail(s: string)
    ensures IsEmail(Lower(s)) == IsEmail(s)
  {
    LowerMapsEachChar(s);
    LowerKeepsCount(s);
  }

  /** Lower-casing keeps the number of `@`. */
  lemma {:induction false} LowerKeepsCount(s: string)
    ensures CountChar(Lower(s), '@') == CountChar(s, '@')
    decreases |s|
  {
    if s != [] {
      LowerKeepsCount(s[1..]);
      assert Lower(s)[1..] == Lower(s[1..]);
    }
  }

  const PASSWORD_MIN_LENGTH := 8
  const NAME_MIN_LENGTH := 1
  const NAME_MAX_LENGTH := 100

  /** `UserCreate`: the sign-up request. */
  datatype UserCreate = UserCreate(email: string, password: string, name: string) {
    /** The field constraints FastAPI enforces before the handler runs. */
    predicate Valid() {
      IsEmail(email) && |password| >= PASSWORD_MIN_LENGTH && NAME_MIN_LENGTH <= |name| <= NAME_MAX_LENGTH
    }
  }

  /** `UserLogin`: the sign-in request; its password has no length constraint. */
  datatype UserLogin = UserLogin(email: string, password: string) {
    predicate Valid() {
      IsEmail(email)
    }
  }

  /** `UserResponse`: the public view of a user, which has no password field. */
  datatype UserResponse = UserResponse(id: Uuid, email: string, name: string)

  /** The `token_type` a `TokenResponse` carries unless told otherwise. */
  const DEFAULT_TOKEN_TYPE := "bearer"

  /** `TokenResponse`: the sign-in reply. */
  datatype TokenResponse = TokenResponse(accessToken: Jwt.Token, tokenType: string, user: UserResponse)

  /** A sign-up request may not have a password shorter than eight characters, nor an empty or overlong name. */
  lemma SignupConstraints(u: UserCreate)
    ensures |u.password| < 8 || u.name == [] || |u.name| > 100 ==> !u.Valid()
  {
  }

  /** A sign-in request is valid with a password of any length, the empty one included. */
  lemma LoginPasswordUnconstrained(email: string, p: string, q: string)
    ensures UserLogin(email, p).Valid() == UserLogin(email, q).Valid()
  {
  }
}

/**
 * A symbolic model of PyJWT's `jwt.encode` and `jwt.decode` for HMAC
 * algorithms (RFC 7519 tokens in the compact serialisation of section 7.1 of
 * RFC 7515). A token is represented by what its three segments say: the header's
 * algorithm, the claims, and a signature that is an unforgeable tag of the
 * algorithm, the key and the claims. Base64url and HMAC-SHA-256 themselves are
 * not modelled.
 */
module Jwt {
  import opened Wrappers

  /** A JSON claim value, as far as the service distinguishes them. */
  datatype Value = Str(s: string) | Int(n: int) | Null | Other

  /** A JWT claim set: a JSON object. */
  type Claims = map<string, Value>

  /** The signature segment: HMAC of header and payload under `key`, as a free constructor. */
  datatype Signature = Hmac(alg: string, key: string, claims: Claims)

  /** A bearer token string, seen through its parse. */
  datatype Token =
    | Compact(alg: string, claims: Claims, signature: Signature)
    /** Text that is not three base64url segments of a JSON header and payload. */
    | Malformed(text: string)

  /** The `jwt.InvalidTokenError` subclasses `decode` raises. */
  datatype DecodeFailure =
    | DecodeError
    | InvalidAlgorithmError
    | InvalidSignatureError
    | ExpiredSignatureError

  /** `jwt.encode(claims, key, algorithm=alg)`. */
  function Encode(claims: Claims, key: string, alg: string): (t: Token)
    ensures t.Compact? && t.alg == alg && t.claims == claims
  {
    Compact(alg, claims, Hmac(alg, key, claims))
  }

  /**
   * `jwt.decode(token, key, algorithms=algorithms)` at time `now` (seconds):
   * the header's algorithm must be in the allow-list, the signature must be
   * the one `key` gives, and an `exp` claim must be an integer later than `now`.
   */
  function Decode(t: Token, key: string, algorithms: seq<string>, now: int): (r: Result<Claims, DecodeFailure>)
    ensures r.Ok? <==>
      t.Compact? && t.alg in algorithms && t.signature == Hmac(t.alg, key, t.claims) &&
      ("exp" in t.claims ==> t.claims["exp"].Int? && now < t.claims["exp"].n)
    ensures r.Ok? ==> r.value == t.claims
  {
    match t
    case Malformed(_) => Err(DecodeError)
    case Compact(alg, claims, signature) =>
      if alg !in algorithms then Err(InvalidAlgorithmError)
      else if signature != Hmac(alg, key, claims) then Err(InvalidSignatureError)
      else if "exp" in claims && !claims["exp"].Int? then Err(DecodeError)
      else if "exp" in claims && claims["exp"].n <= now then Err(ExpiredSignatureError)
      else Ok(claims)
  }

  /** Decoding what was encoded with the same key and an allowed algorithm gives back the claims while `exp` lies ahead. */
  lemma DecodeEncode(claims: Claims, key: string, alg: string, algorithms: seq<string>, now: int)
    requires alg in algorithms
    requires "exp" in claims && claims["exp"].Int? && now < claims["exp"].n
    ensures Decode(Encode(claims, key, alg), key, algorithms, now) == Ok(claims)
  {
  }

  /** Decoding with another key fails. */
  lemma DecodeOtherKey(claims: Claims, key: string, other: string, alg: string, algorithms: seq<string>, now: int)
    requires other != key
    ensures Decode(Encode(claims, key, alg), other, algorithms, now).Err?
  {
  }

  /** A token whose header names an algorithm outside the allow-list fails, whatever it carries. */
  lemma DecodeOtherAlgorithm(t: Token, key: string, algorithms: seq<string>, now: int)
    requires t.Compact? && t.alg !in algorithms
    ensures Decode(t, key, algorithms, now) == Err(InvalidAlgorithmError)
  {
  }

  /** Changing the payload of a signed token without re-signing it makes it fail. */
  lemma DecodeTampered(claims: Claims, forged: Claims, key: string, alg: string, algorithms: seq<string>, now: int)
    requires forged != claims
    ensures Decode(Compact(alg, forged, Encode(claims, key, alg).signature), key, algorithms, now).Err?
  {
  }

  /** Once `now` reaches `exp`, a correctly signed token fails as expired. */
  lemma DecodeExpired(claims: Claims, key: string, alg: string, algorithms: seq<string>, now: int)
    requires alg in algorithms
    requires "exp" in claims && claims["exp"].Int? && claims["exp"].n <= now
    ensures Decode(Encode(claims, key, alg), key, algorithms, now) == Err(ExpiredSignatureError)
  {
  }
}

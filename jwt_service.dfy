/**
 * The access-token decisions of `JwtServiceImpl`: the signing-key gate, the claims an issued
 * token carries, and the validity rule (revoked means invalid; otherwise the subject must
 * match and the token must not be expired). Signing, serialisation and parsing of HS256 JWTs
 * are taken as given functions over an abstract claims map.
 */
module Jwt {
  import opened Wrappers
  import opened RevokedTokens

  /** A claim value: a string, an instant (milliseconds), or any other JSON value. */
  datatype ClaimValue = Text(text: string) | Date(millis: int) | Other(code: int)

  type ClaimMap = map<string, ClaimValue>

  const SubjectClaim: string := "sub"
  const IssuedAtClaim: string := "iat"
  const ExpirationClaim: string := "exp"

  /** 32 bytes = 256 bits, the least key length HMAC-SHA-256 signing accepts here. */
  const MinKeyBytes: nat := 32

  /** Why jjwt's parser rejects a token. */
  datatype ParseError = BadSignature | Malformed | ExpiredJwt

  datatype JwtError =
    | SecretNotConfigured       // IllegalArgumentException "The JWT secret key is not configured."
    | SecretNotBase64           // Decoders.BASE64 rejects the secret
    | SecretTooShort            // IllegalArgumentException "... minimum length of 256 bits."
    | Unparsable(reason: ParseError)
    | MissingClaim(name: string) // a null subject or expiration dereferenced

  /**
   * The configuration of the service and the library calls it makes:
   * `secret` is `api.security.token.secret` (None when null), `decodedKeyLength` the number of
   * bytes its Base64 decoding yields (None when it is not Base64), `expirationMillis` is
   * `api.security.token.expiration`, `compact` signs and serialises a claims map under the key,
   * `parse` is jjwt's `parseClaimsJws` under the key at a given instant, and `formatDate` renders
   * an instant as "yyyy-MM-dd HH:mm:ss".
   */
  datatype JwtConfig = JwtConfig(
    secret: Option<string>,
    decodedKeyLength: Option<nat>,
    expirationMillis: int,
    compact: ClaimMap -> string,
    parse: (string, int) -> Result<ClaimMap, ParseError>,
    formatDate: int -> string)

  datatype SigningKey = SigningKey(lengthInBytes: nat)

  /** `getSignInKey`: refuse an unset or empty secret, and a key shorter than 256 bits. */
  function GetSignInKey(config: JwtConfig): (r: Result<SigningKey, JwtError>)
    ensures config.secret.None? || config.secret.value == "" ==> r == Failure(SecretNotConfigured)
    ensures r.Success? <==>
              config.secret.Some? && config.secret.value != "" &&
              config.decodedKeyLength.Some? && config.decodedKeyLength.value >= MinKeyBytes
    ensures r.Success? ==> r.value.lengthInBytes == config.decodedKeyLength.value
  {
    if config.secret.None? || config.secret.value == "" then Failure(SecretNotConfigured)
    else if config.decodedKeyLength.None? then Failure(SecretNotBase64)
    else if config.decodedKeyLength.value < MinKeyBytes then Failure(SecretTooShort)
    else Success(SigningKey(config.decodedKeyLength.value))
  }

  /** The `sub` claim, when it holds a string. */
  function SubjectOf(claims: ClaimMap): Option<string>
  {
    if SubjectClaim in claims && claims[SubjectClaim].Text? then Some(claims[SubjectClaim].text) else None
  }

  /** The `exp` claim, when it holds an instant. */
  function ExpirationOf(claims: ClaimMap): Option<int>
  {
    if ExpirationClaim in claims && claims[ExpirationClaim].Date? then Some(claims[ExpirationClaim].millis) else None
  }

  /** A token as `buildToken` produces it: its claims, its expiry instant and the returned map. */
  datatype IssuedToken = IssuedToken(claims: ClaimMap, expiresAt: int, details: map<string, string>)

  /**
   * `buildToken`: the extra claims, then the subject, issued-at and expiration (so these
   * override same-named extra claims), signed under the key; the result map holds the token
   * and its formatted expiry.
   */
  function BuildToken(extraClaims: ClaimMap, username: string, expiration: int, now: int, config: JwtConfig)
    : (r: Result<IssuedToken, JwtError>)
    ensures r.Success? <==> GetSignInKey(config).Success?
    ensures r.Failure? ==> r.error == GetSignInKey(config).error
    ensures r.Success? ==>
              && SubjectOf(r.value.claims) == Some(username)
              && IssuedAtClaim in r.value.claims && r.value.claims[IssuedAtClaim] == Date(now)
              && ExpirationOf(r.value.claims) == Some(now + expiration)
              && r.value.expiresAt == now + expiration
    ensures r.Success? ==>
              forall k :: k != SubjectClaim && k != IssuedAtClaim && k != ExpirationClaim ==>
                (k in r.value.claims <==> k in extraClaims) &&
                (k in extraClaims ==> r.value.claims[k] == extraClaims[k])
    ensures r.Success? ==>
              r.value.details.Keys == {"token", "expiresAt"} &&
              r.value.details["token"] == config.compact(r.value.claims) &&
              r.value.details["expiresAt"] == config.formatDate(r.value.expiresAt)
  {
    var expirationDate := now + expiration;
    var claims := extraClaims[SubjectClaim := Text(username)][IssuedAtClaim := Date(now)][ExpirationClaim := Date(expirationDate)];
    match GetSignInKey(config)
    case Failure(e) => Failure(e)
    case Success(_) =>
      Success(IssuedToken(claims, expirationDate,
        map["token" := config.compact(claims), "expiresAt" := config.formatDate(expirationDate)]))
  }

  /** `generateToken(userDetails)`: no extra claims, the configured lifetime. */
  function GenerateToken(username: string, now: int, config: JwtConfig): (r: Result<IssuedToken, JwtError>)
    ensures r.Success? <==> GetSignInKey(config).Success?
    ensures r.Success? ==>
              r.value.claims.Keys == {SubjectClaim, IssuedAtClaim, ExpirationClaim} &&
              SubjectOf(r.value.claims) == Some(username) &&
              r.value.expiresAt == now + config.expirationMillis
  {
    GenerateTokenWithClaims(map[], username, now, config)
  }

  /** `generateToken(extraClaims, userDetails)`: the configured lifetime. */
  function GenerateTokenWithClaims(extraClaims: ClaimMap, username: string, now: int, config: JwtConfig)
    : (r: Result<IssuedToken, JwtError>)
    ensures r.Success? ==>
              r.value.expiresAt == now + config.expirationMillis &&
              ExpirationOf(r.value.claims) == Some(now + config.expirationMillis)
  {
    BuildToken(extraClaims, username, config.expirationMillis, now, config)
  }

  /** `extractAllClaims`: obtain the key, then parse and check the token under it. */
  function ExtractAllClaims(token: string, now: int, config: JwtConfig): (r: Result<ClaimMap, JwtError>)
    ensures GetSignInKey(config).Failure? ==> r == Failure(GetSignInKey(config).error)
    ensures GetSignInKey(config).Success? ==> (r.Success? <==> config.parse(token, now).Success?)
    ensures r.Success? ==> r.value == config.parse(token, now).value
  {
    match GetSignInKey(config)
    case Failure(e) => Failure(e)
    case Success(_) =>
      match config.parse(token, now)
      case Success(c) => Success(c)
      case Failure(e) => Failure(Unparsable(e))
  }

  /** `isTokenExpired`: the expiration instant lies strictly before now. */
  function IsTokenExpired(token: string, now: int, config: JwtConfig): (r: Result<bool, JwtError>)
    ensures ExtractAllClaims(token, now, config).Failure? ==> r == Failure(ExtractAllClaims(token, now, config).error)
    ensures r.Success? <==>
              ExtractAllClaims(token, now, config).Success? && ExpirationOf(ExtractAllClaims(token, now, config).value).Some?
    ensures r.Success? ==> (r.value <==> ExpirationOf(ExtractAllClaims(token, now, config).value).value < now)
  {
    match ExtractAllClaims(token, now, config)
    case Failure(e) => Failure(e)
    case Success(claims) =>
      match ExpirationOf(claims)
      case None => Failure(MissingClaim(ExpirationClaim))
      case Some(exp) => Success(exp < now)
  }

  /**
   * `isTokenValid`: the subject is extracted first (a token that does not parse fails here,
   * revoked or not); a revoked token is invalid; otherwise the subject must be the user's name
   * and the token must not be expired.
   */
  function IsTokenValid(token: string, username: string, revoked: seq<RevokedToken>, now: int, config: JwtConfig)
    : (r: Result<bool, JwtError>)
    ensures ExtractAllClaims(token, now, config).Failure? ==> r == Failure(ExtractAllClaims(token, now, config).error)
    ensures r == Success(true) ==>
              && !ExistsByToken(revoked, token)
              && ExtractAllClaims(token, now, config).Success?
              && SubjectOf(ExtractAllClaims(token, now, config).value) == Some(username)
              && ExpirationOf(ExtractAllClaims(token, now, config).value).Some?
              && ExpirationOf(ExtractAllClaims(token, now, config).value).value >= now
  {
    match ExtractAllClaims(token, now, config)
    case Failure(e) => Failure(e)
    case Success(claims) =>
      if ExistsByToken(revoked, token) then Success(false)
      else match SubjectOf(claims)
        case None => Failure(MissingClaim(SubjectClaim))
        case Some(subject) =>
          if subject != username then Success(false)
          else match IsTokenExpired(token, now, config)
            case Failure(e) => Failure(e)
            case Success(expired) => Success(!expired)
  }

  /** A revoked token is never valid, whatever its subject or expiry; if it parses, the answer is `false`. */
  lemma RevokedIsNeverValid(token: string, username: string, revoked: seq<RevokedToken>, now: int, config: JwtConfig)
    requires ExistsByToken(revoked, token)
    ensures IsTokenValid(token, username, revoked, now, config) != Success(true)
    ensures ExtractAllClaims(token, now, config).Success? ==> IsTokenValid(token, username, revoked, now, config) == Success(false)
  {
  }

  /**
   * For a token that is not revoked and parses with a subject and an expiration, validity is
   * exactly: the subject is the user's name and the expiration is not before now.
   */
  lemma ValidityRule(token: string, username: string, revoked: seq<RevokedToken>, now: int, config: JwtConfig)
    requires !ExistsByToken(revoked, token)
    requires ExtractAllClaims(token, now, config).Success?
    requires SubjectOf(ExtractAllClaims(token, now, config).value).Some?
    requires ExpirationOf(ExtractAllClaims(token, now, config).value).Some?
    ensures IsTokenValid(token, username, revoked, now, config) ==
            Success(SubjectOf(ExtractAllClaims(token, now, config).value).value == username &&
                    ExpirationOf(ExtractAllClaims(token, now, config).value).value >= now)
  {
  }

  /**
   * A token issued for `username`, presented while it has not yet expired and not revoked, is
   * valid for that user and invalid for every other name, given that the parser gives back the
   * claims the token was signed with.
   */
  lemma IssuedTokenIsValidForItsSubject(
    extraClaims: ClaimMap, username: string, expiration: int, now: int, config: JwtConfig,
    revoked: seq<RevokedToken>, at: int, name: string)
    requires BuildToken(extraClaims, username, expiration, now, config).Success?
    requires var t := BuildToken(extraClaims, username, expiration, now, config).value;
             config.parse(config.compact(t.claims), at) == Success(t.claims) &&
             !ExistsByToken(revoked, config.compact(t.claims))
    requires at <= now + expiration
    ensures var t := BuildToken(extraClaims, username, expiration, now, config).value;
            IsTokenValid(t.details["token"], name, revoked, at, config) == Success(name == username)
  {
  }
}

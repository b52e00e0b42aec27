/**
 * `AuthServiceImpl`: login, refresh, logout, registration and the current-user lookup,
 * composed from the user table, the revoked-token table, the refresh-token store and the
 * access-token service. Login, refresh, logout and registration each run in one transaction:
 * when one fails, every change it made is rolled back. `me` only reads.
 */
module Auth {
  import opened Wrappers
  import opened Users
  import opened Requests
  import opened RefreshTokens
  import opened RefreshTokenStore
  import opened RevokedTokens
  import opened Jwt

  /** The length of "Bearer ", the part of the header that is cut off (without being checked). */
  const BearerPrefixLength: nat := 7

  /** The role id every self-registered user receives. */
  const DefaultRoleId: int := 2

  const TokenType: string := "Bearer"

  datatype AuthError =
    | InvalidCredentials        // no active user with that username
    | BadCredentials            // the authentication manager rejects the password
    | HeaderTooShort            // `substring(7)` on a header shorter than 7 characters
    | RefreshFailed(cause: StoreError)
    | TokenFailed(reason: JwtError)
    | NoAuthenticatedUser
    | UserNotFound
    | RoleNotFound
    | PasswordMissing           // the password encoder rejects a null password
    | InvalidEntity             // a Bean Validation constraint of the `User` entity fails at save
    | DuplicateUser             // the users table's unique username / email constraint

  /** The authentication held by the security context: the principal's name and whether it is authenticated. */
  datatype Authentication = Authentication(name: string, authenticated: bool)

  /** `LoginResponseDto`. */
  datatype LoginResponse = LoginResponse(
    accessToken: string,
    tokenType: string,
    refreshToken: string,
    expiresIn: string,
    user: UserView)

  /** `authHeader.substring(7)`: the raw token is whatever follows the first seven characters. */
  function RawToken(authHeader: string): (r: Result<string, AuthError>)
    ensures r.Success? <==> |authHeader| >= BearerPrefixLength
    ensures r.Success? ==> authHeader == authHeader[..BearerPrefixLength] + r.value
    ensures r.Failure? ==> r.error == HeaderTooShort
  {
    if |authHeader| < BearerPrefixLength then Failure(HeaderTooShort)
    else
      assert authHeader == authHeader[..BearerPrefixLength] + authHeader[BearerPrefixLength..];
      Success(authHeader[BearerPrefixLength..])
  }

  /** The prefix is not checked: any seven characters are cut off, "Bearer " or not. */
  lemma AnyPrefixIsStripped(prefix: string, token: string)
    requires |prefix| == BearerPrefixLength
    ensures RawToken(prefix + token) == Success(token)
  {
  }

  /** `me`: the user named by an authenticated security context. */
  function Me(authentication: Option<Authentication>, users: seq<User>): (r: Result<User, AuthError>)
    ensures authentication.None? || !authentication.value.authenticated ==> r == Failure(NoAuthenticatedUser)
    ensures r.Success? ==> r.value in users && r.value.username == authentication.value.name
    ensures authentication.Some? && authentication.value.authenticated ==>
              (r == Failure(UserNotFound) <==>
               forall i :: 0 <= i < |users| ==> users[i].username != authentication.value.name)
    ensures r.Success? <==>
              authentication.Some? && authentication.value.authenticated &&
              exists i :: 0 <= i < |users| && users[i].username == authentication.value.name
  {
    if authentication.None? || !authentication.value.authenticated then Failure(NoAuthenticatedUser)
    else match FindByUsername(users, authentication.value.name)
      case None => Failure(UserNotFound)
      case Some(u) => Success(u)
  }

  /** The row `register` builds: `new User(...)` with the generated id, active, and role 2. */
  function NewUser(id: int, request: RegisterRequest, passwordHash: string): (u: User)
    ensures u.isActive && u.roleId == DefaultRoleId && u.id == id && u.passwordHash == passwordHash
    ensures u.username == request.username && u.email == request.email
  {
    User(id, request.name, request.username, request.email, request.phone, passwordHash, true, DefaultRoleId)
  }

  /**
   * The constraints `RegisterRequestDto` declares on name, username and phone are those of the
   * entity, so a request the controller's `@Valid` accepts never fails the entity's checks,
   * given an encoded password that is not blank.
   */
  lemma ValidatedRequestPassesEntityChecks(id: int, request: RegisterRequest, passwordHash: string)
    requires !Blank(request.name) && 3 <= |request.name| <= 50
    requires !Blank(request.username) && 3 <= |request.username| <= 20
    requires !Blank(request.phone) && |request.phone| == 10 && AllDigits(request.phone)
    requires !Blank(passwordHash)
    ensures SatisfiesEntityConstraints(NewUser(id, request, passwordHash))
  {
  }

  class AuthService {
    var users: seq<User>
    var roleIds: set<int>
    var revoked: seq<RevokedToken>
    var nextUserId: int
    const refreshTokens: RefreshTokenService
    const jwt: JwtConfig
    /** `api.security.token.refresh-token-expiration`, in minutes. */
    const refreshTokenExpiration: int

    ghost predicate Valid()
      reads this, refreshTokens
    {
      && refreshTokens.Valid()
      && UniqueColumns(users)
      && (forall i :: 0 <= i < |users| ==> users[i].id < nextUserId)
    }

    constructor (users: seq<User>, roleIds: set<int>, nextUserId: int, refreshTokens: RefreshTokenService,
                 jwt: JwtConfig, refreshTokenExpiration: int)
      requires refreshTokens.Valid() && UniqueColumns(users)
      requires forall i :: 0 <= i < |users| ==> users[i].id < nextUserId
      ensures Valid()
      ensures this.users == users && this.roleIds == roleIds && this.nextUserId == nextUserId && revoked == []
      ensures this.refreshTokens == refreshTokens && this.jwt == jwt && this.refreshTokenExpiration == refreshTokenExpiration
    {
      this.users := users;
      this.roleIds := roleIds;
      this.nextUserId := nextUserId;
      this.revoked := [];
      this.refreshTokens := refreshTokens;
      this.jwt := jwt;
      this.refreshTokenExpiration := refreshTokenExpiration;
    }

    /**
     * `login`. `principal` is what the authentication manager returns for the request's
     * credentials (None when it rejects them); `now` is the clock and `uuid` the random value
     * of the new refresh token.
     */
    method Login(request: LoginRequest, principal: Option<User>, now: int, uuid: string)
      returns (r: Result<LoginResponse, AuthError>)
      requires Valid()
      modifies refreshTokens
      ensures Valid()
      ensures FindActiveByUsername(users, request.username).None? ==> r == Failure(InvalidCredentials)
      ensures FindActiveByUsername(users, request.username).Some? && principal.None? ==> r == Failure(BadCredentials)
      ensures (FindActiveByUsername(users, request.username).Some? && principal.Some? && GetSignInKey(jwt).Failure?) ==>
                r == Failure(TokenFailed(GetSignInKey(jwt).error))
      ensures (FindActiveByUsername(users, request.username).Some? && principal.Some? && GetSignInKey(jwt).Success?) ==>
                (r.Success? <==> CreateStep(old(refreshTokens.rows), principal.value, refreshTokenExpiration, now, uuid).0.Success?)
      ensures (FindActiveByUsername(users, request.username).Some? && principal.Some? && GetSignInKey(jwt).Success? &&
               CreateStep(old(refreshTokens.rows), principal.value, refreshTokenExpiration, now, uuid).0.Failure?) ==>
                r == Failure(RefreshFailed(DuplicateToken))
      ensures r.Failure? ==> refreshTokens.rows == old(refreshTokens.rows)
      ensures r.Success? ==>
                && FindActiveByUsername(users, request.username).Some? && principal.Some?
                && var user := principal.value;
                   var access := GenerateToken(user.username, now, jwt);
                   var created := NewRefreshToken(user, refreshTokenExpiration, now, uuid);
                   && access.Success?
                   && (Success(created), refreshTokens.rows) == CreateStep(old(refreshTokens.rows), user, refreshTokenExpiration, now, uuid)
                   && OwnedBy(refreshTokens.rows, user.id) == [created]
                   && r.value == LoginResponse(access.value.details["token"], TokenType, uuid,
                                               access.value.details["expiresAt"], ToView(user))
    {
      var user := FindActiveByUsername(users, request.username);
      if user.None? {
        return Failure(InvalidCredentials);
      }
      if principal.None? {
        return Failure(BadCredentials);
      }
      var currentUser := principal.value;
      var userDto := ToView(currentUser);
      var accessTokenDetails := GenerateToken(currentUser.username, now, jwt);
      if accessTokenDetails.Failure? {
        return Failure(TokenFailed(accessTokenDetails.error));
      }
      var snapshot := refreshTokens.rows;
      var refreshToken := refreshTokens.CreateRefreshToken(currentUser, refreshTokenExpiration, now, uuid);
      if refreshToken.Failure? {
        // the transaction rolls back the deletion of the user's previous token
        refreshTokens.rows := snapshot;
        return Failure(RefreshFailed(refreshToken.error));
      }
      r := Success(LoginResponse(accessTokenDetails.value.details["token"], TokenType, refreshToken.value.token,
                                 accessTokenDetails.value.details["expiresAt"], userDto));
    }

    /**
     * `refreshToken`: revoke the presented access token, verify the refresh token, and issue
     * a new access token for its owner; the refresh token itself is returned unchanged.
     */
    method Refresh(authHeader: string, request: RefreshTokenRequest, now: int)
      returns (r: Result<LoginResponse, AuthError>)
      requires Valid()
      modifies this, refreshTokens
      ensures Valid()
      ensures users == old(users) && roleIds == old(roleIds) && nextUserId == old(nextUserId)
      ensures |authHeader| < BearerPrefixLength ==> r == Failure(HeaderTooShort)
      ensures |authHeader| >= BearerPrefixLength && VerifyStep(old(refreshTokens.rows), request.refreshToken, now).0.Failure? ==>
                r == Failure(RefreshFailed(VerifyStep(old(refreshTokens.rows), request.refreshToken, now).0.error))
      ensures (|authHeader| >= BearerPrefixLength && VerifyStep(old(refreshTokens.rows), request.refreshToken, now).0.Success?) ==>
                (r.Success? <==> GetSignInKey(jwt).Success?)
      ensures (|authHeader| >= BearerPrefixLength && VerifyStep(old(refreshTokens.rows), request.refreshToken, now).0.Success? &&
               GetSignInKey(jwt).Failure?) ==>
                r == Failure(TokenFailed(GetSignInKey(jwt).error))
      ensures r.Failure? ==> revoked == old(revoked) && refreshTokens.rows == old(refreshTokens.rows)
      ensures r.Success? ==>
                && |authHeader| >= BearerPrefixLength
                && revoked == Revoke(old(revoked), authHeader[BearerPrefixLength..], now)
                && refreshTokens.rows == old(refreshTokens.rows)
                && var verified := VerifyStep(old(refreshTokens.rows), request.refreshToken, now).0;
                   && verified.Success?
                   && var owner := verified.value.owner;
                      var access := GenerateToken(owner.username, now, jwt);
                      && access.Success?
                      && r.value == LoginResponse(access.value.details["token"], TokenType, request.refreshToken,
                                                  access.value.details["expiresAt"], ToView(owner))
    {
      var raw := RawToken(authHeader);
      if raw.Failure? {
        return Failure(raw.error);
      }
      var token := raw.value;
      var revokedBefore, rowsBefore := revoked, refreshTokens.rows;
      RevokeToken(token, now);
      var refreshToken := refreshTokens.VerifyRefreshToken(request.refreshToken, now);
      if refreshToken.Failure? {
        // the transaction rolls back the revocation and an expired token's deletion
        revoked, refreshTokens.rows := revokedBefore, rowsBefore;
        return Failure(RefreshFailed(refreshToken.error));
      }
      var user := refreshToken.value.owner;
      var userDto := ToView(user);
      var accessTokenDetails := GenerateToken(user.username, now, jwt);
      if accessTokenDetails.Failure? {
        revoked := revokedBefore;
        return Failure(TokenFailed(accessTokenDetails.error));
      }
      r := Success(LoginResponse(accessTokenDetails.value.details["token"], TokenType, refreshToken.value.token,
                                 accessTokenDetails.value.details["expiresAt"], userDto));
    }

    /**
     * `logout`: revoke the presented access token, then delete every refresh token of the
     * user named by the security context.
     */
    method Logout(authHeader: string, authentication: Option<Authentication>, now: int)
      returns (r: Result<(), AuthError>)
      requires Valid()
      modifies this, refreshTokens
      ensures Valid()
      ensures users == old(users) && roleIds == old(roleIds) && nextUserId == old(nextUserId)
      ensures |authHeader| < BearerPrefixLength ==> r == Failure(HeaderTooShort)
      ensures |authHeader| >= BearerPrefixLength && Me(authentication, users).Failure? ==>
                r == Failure(Me(authentication, users).error)
      ensures (|authHeader| >= BearerPrefixLength && Me(authentication, users).Success?) ==> r.Success?
      ensures r.Failure? ==> revoked == old(revoked) && refreshTokens.rows == old(refreshTokens.rows)
      ensures r.Success? ==>
                && |authHeader| >= BearerPrefixLength
                && Me(authentication, users).Success?
                && revoked == Revoke(old(revoked), authHeader[BearerPrefixLength..], now)
                && refreshTokens.rows == DeleteByUser(old(refreshTokens.rows), Me(authentication, users).value.id)
                && OwnedBy(refreshTokens.rows, Me(authentication, users).value.id) == []
                && forall name, at :: IsTokenValid(authHeader[BearerPrefixLength..], name, revoked, at, jwt) != Success(true)
    {
      var raw := RawToken(authHeader);
      if raw.Failure? {
        return Failure(raw.error);
      }
      var token := raw.value;
      var revokedBefore := revoked;
      RevokeToken(token, now);
      var user := Me(authentication, users);
      if user.Failure? {
        // the transaction rolls back the revocation
        revoked := revokedBefore;
        return Failure(user.error);
      }
      refreshTokens.DeleteRefreshToken(user.value.id);
      forall name, at ensures IsTokenValid(token, name, revoked, at, jwt) != Success(true) {
        RevokedIsNeverValid(token, name, revoked, at, jwt);
      }
      r := Success(());
    }

    /**
     * `register`: a new active user with role 2, or "Role not found". `passwordHash` is the
     * encoder's output for the request's password; the encoder rejects a missing password.
     * Saving checks the entity's constraints, then the unique columns.
     */
    method Register(request: RegisterRequest, passwordHash: string) returns (r: Result<UserView, AuthError>)
      requires Valid()
      modifies this
      ensures Valid()
      ensures revoked == old(revoked) && roleIds == old(roleIds)
      ensures DefaultRoleId !in roleIds ==> r == Failure(RoleNotFound)
      ensures (DefaultRoleId in roleIds && request.password.None?) ==> r == Failure(PasswordMissing)
      ensures (DefaultRoleId in roleIds && request.password.Some? &&
               !SatisfiesEntityConstraints(NewUser(old(nextUserId), request, passwordHash))) ==>
                r == Failure(InvalidEntity)
      ensures (DefaultRoleId in roleIds && request.password.Some? &&
               SatisfiesEntityConstraints(NewUser(old(nextUserId), request, passwordHash)) &&
               Clashes(old(users), NewUser(old(nextUserId), request, passwordHash))) ==>
                r == Failure(DuplicateUser)
      ensures r.Success? <==>
                && DefaultRoleId in roleIds
                && request.password.Some?
                && SatisfiesEntityConstraints(NewUser(old(nextUserId), request, passwordHash))
                && !Clashes(old(users), NewUser(old(nextUserId), request, passwordHash))
      ensures r.Failure? ==> users == old(users) && nextUserId == old(nextUserId)
      ensures r.Success? ==>
                var created := NewUser(old(nextUserId), request, passwordHash);
                && users == old(users) + [created]
                && nextUserId == old(nextUserId) + 1
                && r.value == ToView(created)
                && FindActiveByUsername(users, request.username) == Some(created)
    {
      if DefaultRoleId !in roleIds {
        return Failure(RoleNotFound);
      }
      if request.password.None? {
        return Failure(PasswordMissing);
      }
      var newUser := NewUser(nextUserId, request, passwordHash);
      if !SatisfiesEntityConstraints(newUser) {
        return Failure(InvalidEntity);
      }
      if Clashes(users, newUser) {
        return Failure(DuplicateUser);
      }
      AppendedUserIsFound(users, newUser);
      ClashesBreaksUnique(users, newUser);
      users := users + [newUser];
      nextUserId := nextUserId + 1;
      r := Success(ToView(newUser));
    }

    /** `revokeToken`: append a row for the value, with no duplicate check. */
    method RevokeToken(token: string, now: int)
      modifies this
      ensures revoked == Revoke(old(revoked), token, now)
      ensures users == old(users) && roleIds == old(roleIds) && nextUserId == old(nextUserId)
    {
      revoked := revoked + [RevokedToken(token, now)];
    }
  }
}

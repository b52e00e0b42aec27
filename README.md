# taskApp authentication and session layer, in Dafny

This project models the authentication and session core of the taskApp REST backend (Java,
Spring): the per-client fixed-window rate limiter, the refresh-token entity and its store,
the access-token (JWT) decisions, the session service (login, refresh, logout, register,
current user) and the password-confirmation validator. The rest of the backend (task and
user CRUD, controllers, paging, HATEOAS links) is not part of this model.

Modules, one per source component:

- `Wrappers` (`wrappers.dfy`): `Option` for Java `null`/`Optional`, `Result` for thrown exceptions.
- `Users` (`users.dfy`): the user row, its response view, the derived lookups and the table's unique constraints.
- `RateLimiter` (`rate_limiter.dfy`): `RateLimiterServiceImpl` as a class over a `map<string, int>`. `Admit` and `Burst` are the specification functions.
- `RefreshTokens` (`refresh_token.dfy`): the `RefreshToken` entity, its constructor arithmetic and `isExpired`.
- `RefreshTokenStore` (`refresh_token_service.dfy`): the `refresh_token` table as a `seq` of rows, the repository queries as functions, and `RefreshTokenServiceImpl` as a class. `CreateStep` and `VerifyStep` are the specification functions its methods are proved against.
- `RevokedTokens` (`revoked_tokens.dfy`): the append-only revoked-token table.
- `Jwt` (`jwt_service.dfy`): `JwtServiceImpl`. It covers the key-length gate, the claims of an issued token and the validity rule.
- `Requests` (`requests.dfy`) and `PasswordValidation` (`password_validator.dfy`): the request records and `PasswordValidator`.
- `Auth` (`auth_service.dfy`): `AuthServiceImpl` as a class that owns the user table and the revoked-token table and holds the refresh-token store.

Inputs from outside the program become parameters:

- The clock is `now`, in milliseconds, for both `LocalDateTime.now()` and `System.currentTimeMillis()`.
- `UUID.randomUUID()` is `uuid`.
- The password encoder's output is `passwordHash`.
- The authentication manager's answer is `principal`. `None` means it rejected the credentials.
- The security context's authentication is `authentication`.
- JWT signing and serialisation, parsing and date formatting are the functions `compact`, `parse` and `formatDate` inside `JwtConfig`.
- The Base64 decoding of the secret is its decoded byte length, `decodedKeyLength`.

Behaviour of the code worth noting, which the model keeps:

- The rate limiter refuses a request without counting it once the count has reached the limit. It does not increment first and then compare.
- `refreshToken` returns the refresh token it was given; it does not rotate it. It also does not consult the owner's active flag.
- Revoking a token twice stores two rows; lookups answer as if it had been revoked once (`RevokedTokens.RevokeTwiceLikeOnce`).
- `isTokenValid` extracts the subject before it checks the revoked table. A token that does not parse therefore fails with the parser's error even when it is revoked.
- `isTokenExpired` is a strict "before now" test, so a token is still valid at its exact expiry instant.
- `login`, `refreshToken`, `register` and `logout` are `@Transactional`, so a runtime exception rolls them back; `me` only reads. The model makes each of the four atomic: on failure the revoked-token table and the refresh-token table are as they were. As a consequence, the self-cleaning deletion of an expired refresh token holds for the store called on its own (`RefreshTokenStore.ExpiredTokenCleansUp`). Through `refreshToken` the deletion is rolled back together with the revocation.
- `register` saves a `User` entity whose Bean Validation constraints (non-blank name of 3 to 50 characters, non-blank username of 3 to 20, a phone of exactly 10 digits, a non-blank password) are checked before the insert. A failure is `InvalidEntity`; a unique-column clash after that is `DuplicateUser`. Before that, `passwordEncoder.encode` rejects a null password, which is `PasswordMissing`. `RegisterRequestDto` declares the same constraints for name, username and phone, so a request the controller validated passes them (`Auth.ValidatedRequestPassesEntityChecks`).
- `logout` calls `me()`, which throws before the `IllegalStateException` branch could be reached. That branch is unreachable and is not modelled.

## Model

| member | source | states |
|---|---|---|
| `Users.FindByUsername` | src/main/java/com/azael/taskapp/persistence/repositories/UserRepository.java:18 | the lookup returns a row of the table with exactly that username, or None only when no row has it |
| `Users.FindActiveByUsername` | src/main/java/com/azael/taskapp/persistence/repositories/UserRepository.java:20 | the lookup returns an active row with that username, or None only when no row is both |
| `Users.ClashesBreaksUnique` | src/main/java/com/azael/taskapp/persistence/entities/User.java:37-40 | into a table meeting the unique constraints, inserting a user breaks them exactly when `Clashes` holds, i.e. some row shares its username or its e-mail |
| `Users.ViewHidesPasswordHash` | src/main/java/com/azael/taskapp/persistence/mappers/UserMapper.java:12-23 | the client view keeps id, username and active flag and drops the password hash: users differing only in the hash have the same view |
| `Users.ActiveLookupAgrees` | src/main/java/com/azael/taskapp/persistence/repositories/UserRepository.java:18-20 | with unique usernames, the active lookup returns the plain lookup's row when that row is active, and None otherwise |
| `Users.AppendedUserIsFound` | src/main/java/com/azael/taskapp/services/impl/AuthServiceImpl.java:141-151 | an active user saved under a username not yet in the table is the row that login's lookup finds |
| `RateLimiter.Admit` | src/main/java/com/azael/taskapp/services/impl/RateLimiterServiceImpl.java:16-23 | a request is admitted iff the stored count (0 when absent) is below the limit; a refusal changes no counter; an admission raises that address's count by one; every other address keeps its count |
| `RateLimiter.AdmitKeepsLimit` | src/main/java/com/azael/taskapp/services/impl/RateLimiterServiceImpl.java:17-21 | the invariant "every stored count lies in 1..limit" is preserved by each call |
| `RateLimiter.BurstAnswers` | src/main/java/com/azael/taskapp/services/impl/RateLimiterServiceImpl.java:16-23 | from a count c, the i-th of n consecutive calls is admitted iff c + i < limit, and the final count is min(c + n, limit), or c when c is already at or over the limit |
| `RateLimiter.BurstLeavesOthers` | src/main/java/com/azael/taskapp/services/impl/RateLimiterServiceImpl.java:17-21 | any number of calls for one address leave every other address's count unchanged |
| `RateLimiter.FreshWindowAdmitsExactlyMax` | src/main/java/com/azael/taskapp/services/impl/RateLimiterServiceImpl.java:16-27 | from an empty map, the first limit calls are admitted and call limit + 1 is refused |
| `RateLimiter.NonPositiveLimitRefusesAll` | src/main/java/com/azael/taskapp/services/impl/RateLimiterServiceImpl.java:17-19 | with a limit of 0 or less every call is refused and the map stays empty |
| `RateLimiter.RateLimiterService.constructor` | src/main/java/com/azael/taskapp/services/impl/RateLimiterServiceImpl.java:12-14 | the limiter starts with an empty map and the configured limit |
| `RateLimiter.RateLimiterService.IsAllowed` | src/main/java/com/azael/taskapp/services/impl/RateLimiterServiceImpl.java:16-23 | the answer and the new map are those of `Admit` on the old map; the 1..limit invariant is kept |
| `RateLimiter.RateLimiterService.Reset` | src/main/java/com/azael/taskapp/services/impl/RateLimiterServiceImpl.java:25-27 | the map is emptied, so with a positive limit the next call for any address is admitted |
| `RateLimiter.LimitThenReset` | src/main/java/com/azael/taskapp/services/impl/RateLimiterServiceImpl.java:16-27 | a client of the class: limit admissions, then one refusal, then after `reset` an admission again |
| `RefreshTokens.NewRefreshToken` | src/main/java/com/azael/taskapp/persistence/entities/RefreshToken.java:37-41 | the new token holds the drawn value and the user, and is already expired at its creation instant exactly when the lifetime is negative |
| `RefreshTokens.ExpiryIsMonotone` | src/main/java/com/azael/taskapp/persistence/entities/RefreshToken.java:43-45 | a token expired at t is expired at every later instant |
| `RefreshTokens.LiveForItsLifetime` | src/main/java/com/azael/taskapp/persistence/entities/RefreshToken.java:37-45 | a token built with m >= 0 minutes is live at its creation instant and, from then on, live exactly up to and including creation + m minutes |
| `RefreshTokenStore.FindByToken` | src/main/java/com/azael/taskapp/persistence/repositories/RefreshTokenRepository.java:15 | the lookup returns a row holding that value, or None only when no row holds it |
| `RefreshTokenStore.DeleteByUser` | src/main/java/com/azael/taskapp/persistence/repositories/RefreshTokenRepository.java:17-18 | exactly the rows not owned by the user remain; unique values and one-row-per-user are preserved |
| `RefreshTokenStore.DeleteToken` | src/main/java/com/azael/taskapp/services/impl/RefreshTokenServiceImpl.java:31-32 | exactly the rows not holding that value remain; the table invariants are preserved |
| `RefreshTokenStore.CreateStep` | src/main/java/com/azael/taskapp/services/impl/RefreshTokenServiceImpl.java:19-25 | succeeds iff no row of another user holds the drawn value; on success the table is the user's rows removed plus the new token; on failure (DuplicateToken) the user's rows are removed and nothing is added |
| `RefreshTokenStore.VerifyStep` | src/main/java/com/azael/taskapp/services/impl/RefreshTokenServiceImpl.java:27-37 | an unknown value fails with NotFound and leaves the table unchanged; a row that is expired is deleted and the call fails with Expired; a live row is returned and the table is unchanged; each answer occurs exactly in its case |
| `RefreshTokenStore.OwnedAfterDelete` | src/main/java/com/azael/taskapp/persistence/repositories/RefreshTokenRepository.java:17-18 | after deleting a user's rows, that user owns none and every other user owns the same rows as before |
| `RefreshTokenStore.DeleteWithoutTokensIsNoOp` | src/main/java/com/azael/taskapp/services/impl/RefreshTokenServiceImpl.java:39-41 | deleting for a user who owns no row leaves the table unchanged |
| `RefreshTokenStore.CreateReplacesUsersToken` | src/main/java/com/azael/taskapp/services/impl/RefreshTokenServiceImpl.java:19-25 | after a successful create the user owns exactly one row, the returned token with the drawn value; other users' rows are unchanged |
| `RefreshTokenStore.CreateKeepsInvariant` | src/main/java/com/azael/taskapp/services/impl/RefreshTokenServiceImpl.java:19-25 | create keeps token values unique and at most one row per user |
| `RefreshTokenStore.LookupFindsTheOnlyRow` | src/main/java/com/azael/taskapp/persistence/entities/RefreshToken.java:24-25 | with unique values, the row the lookup returns is the only row holding the value |
| `RefreshTokenStore.SecondCreateOrphansFirst` | src/main/java/com/azael/taskapp/services/impl/RefreshTokenServiceImpl.java:19-29 | after two creates for one user with distinct random values, verifying the first value fails with NotFound |
| `RefreshTokenStore.ExpiredTokenCleansUp` | src/main/java/com/azael/taskapp/services/impl/RefreshTokenServiceImpl.java:31-34 | after a verify that failed with Expired, verifying the same value fails with NotFound at any instant; with unique values exactly one row was removed |
| `RefreshTokenStore.DeletedTokenIsNotFound` | src/main/java/com/azael/taskapp/services/impl/RefreshTokenServiceImpl.java:27-41 | once a user's rows are deleted, any former token value of that user fails with NotFound |
| `RefreshTokenStore.RefreshTokenService.CreateRefreshToken` | src/main/java/com/azael/taskapp/services/impl/RefreshTokenServiceImpl.java:19-25 | delete-then-save gives `CreateStep` of the old table; on success the user owns only the new token; other users' rows are unchanged; the invariants hold |
| `RefreshTokenStore.RefreshTokenService.VerifyRefreshToken` | src/main/java/com/azael/taskapp/services/impl/RefreshTokenServiceImpl.java:27-37 | the answer and new table are `VerifyStep` of the old table; the invariants hold |
| `RefreshTokenStore.RefreshTokenService.DeleteRefreshToken` | src/main/java/com/azael/taskapp/services/impl/RefreshTokenServiceImpl.java:39-41 | the user's rows are removed, no other user's rows change, and the invariants hold |
| `RevokedTokens.Revoke` | src/main/java/com/azael/taskapp/services/impl/AuthServiceImpl.java:188-193 | one row is appended and nothing else changes; the value is revoked afterwards; no other value changes status |
| `RevokedTokens.RevokedStaysRevoked` | src/main/java/com/azael/taskapp/persistence/repositories/RevokedTokenRepository.java:10 | a revoked value stays revoked after any further revocation |
| `RevokedTokens.RevokeTwiceLikeOnce` | src/main/java/com/azael/taskapp/services/impl/AuthServiceImpl.java:188-193 | revoking twice answers every lookup as revoking once, while the table holds two new rows |
| `Jwt.GetSignInKey` | src/main/java/com/azael/taskapp/services/impl/JwtServiceImpl.java:131-145 | an unset or empty secret fails as not configured; the key is obtained iff the secret is set, is Base64 and decodes to at least 32 bytes |
| `Jwt.BuildToken` | src/main/java/com/azael/taskapp/services/impl/JwtServiceImpl.java:69-93 | succeeds iff the key gate passes (else its error); subject = username (overriding an extra "sub"), issued-at = now, expiration = now + ttl; every other claim is the extra claim; the result map has exactly the keys "token" and "expiresAt" |
| `Jwt.GenerateToken` | src/main/java/com/azael/taskapp/services/impl/JwtServiceImpl.java:51-53 | with no extra claims the token carries exactly sub, iat and exp, and expires after the configured lifetime |
| `Jwt.GenerateTokenWithClaims` | src/main/java/com/azael/taskapp/services/impl/JwtServiceImpl.java:55-57 | the token expires after the configured lifetime |
| `Jwt.ExtractAllClaims` | src/main/java/com/azael/taskapp/services/impl/JwtServiceImpl.java:114-121 | a key failure is passed on; with a key, the claims are obtained iff the parser accepts the token, and are the parser's claims |
| `Jwt.IsTokenExpired` | src/main/java/com/azael/taskapp/services/impl/JwtServiceImpl.java:106-112 | a parse failure is passed on; an answer exists iff the token parses with an expiration, and it is `true` iff the expiration is strictly before now |
| `Jwt.IsTokenValid` | src/main/java/com/azael/taskapp/services/impl/JwtServiceImpl.java:95-104 | a parse failure is passed on; `true` only for a token that is not revoked, parses with subject equal to the user's name and expires no earlier than now |
| `Jwt.RevokedIsNeverValid` | src/main/java/com/azael/taskapp/services/impl/JwtServiceImpl.java:95-104 | a revoked token is never valid, whatever its subject or expiry, and is answered `false` whenever it parses |
| `Jwt.ValidityRule` | src/main/java/com/azael/taskapp/services/impl/JwtServiceImpl.java:95-112 | for a token that is not revoked and parses with subject and expiration: valid iff the subject equals the user's name and the expiration is not before now |
| `Jwt.IssuedTokenIsValidForItsSubject` | src/main/java/com/azael/taskapp/services/impl/JwtServiceImpl.java:69-112 | a token issued for a user, unrevoked and presented up to its expiry, is valid for that user's name and for no other, given that the parser returns the signed claims |
| `PasswordValidation.CheckPair` | src/main/java/com/azael/taskapp/validation/password/PasswordValidator.java:19-31 | a null password fails; otherwise the pair is valid iff the confirmation equals the password, and a mismatch reports "Passwords do not match" on `confirmPassword` |
| `PasswordValidation.IsValid` | src/main/java/com/azael/taskapp/validation/password/PasswordValidator.java:18-60 | any other object is valid with no violation; an invalid answer always carries exactly the one mismatch violation |
| `PasswordValidation.InvalidIffPasswordsDiffer` | src/main/java/com/azael/taskapp/validation/password/PasswordValidator.java:19-58 | for each of the three request records with a non-null password: invalid iff password and confirmation differ, reported on `confirmPassword` |
| `PasswordValidation.SwapIsSymmetric` | src/main/java/com/azael/taskapp/validation/password/PasswordValidator.java:23 | swapping two non-null fields does not change the answer |
| `Auth.RawToken` | src/main/java/com/azael/taskapp/services/impl/AuthServiceImpl.java:87 | succeeds iff the header has at least 7 characters, and then the header is those 7 characters followed by the result |
| `Auth.AnyPrefixIsStripped` | src/main/java/com/azael/taskapp/services/impl/AuthServiceImpl.java:173 | the prefix is not checked: any 7 characters followed by t yield t |
| `Auth.Me` | src/main/java/com/azael/taskapp/services/impl/AuthServiceImpl.java:155-168 | absent or unauthenticated context fails with "No authenticated user"; otherwise fails with "User not found" iff no row has that name; succeeds exactly for an authenticated context naming an existing row, and returns that row |
| `Auth.AuthService.Login` | src/main/java/com/azael/taskapp/services/impl/AuthServiceImpl.java:59-83 | no active user with that name fails with InvalidCredentials and produces no token; a rejected password fails with BadCredentials; a key failure fails with its error; otherwise it succeeds exactly when the refresh-token create succeeds, and a failed create fails with the store's DuplicateToken; a failure changes no table; success returns "Bearer", the principal's access token and the new refresh value, and leaves the user's one refresh token the new one |
| `Auth.AuthService.Refresh` | src/main/java/com/azael/taskapp/services/impl/AuthServiceImpl.java:84-101 | a short header or a failed verification fails and changes nothing; with a long enough header and a verified refresh token it succeeds exactly when the signing key is available, whether or not the access token was already revoked, and otherwise fails with the key's error; success revokes the header minus its first 7 characters, leaves the refresh table unchanged, returns the same refresh value and an access token for its owner |
| `Auth.AuthService.Logout` | src/main/java/com/azael/taskapp/services/impl/AuthServiceImpl.java:169-185 | a short header or a failing `me` fails and changes nothing; with a long enough header and a successful `me` it always succeeds, and success revokes the header minus 7 characters (so it is never valid afterwards) and removes every refresh token of the current user |
| `Auth.AuthService.Register` | src/main/java/com/azael/taskapp/services/impl/AuthServiceImpl.java:103-153 | a missing role 2 fails with "Role not found"; a missing password is rejected by the encoder (PasswordMissing); a row breaking the entity constraints fails with InvalidEntity; a row sharing the username or e-mail of an existing row fails with DuplicateUser; it succeeds exactly when none of these holds; success appends an active user with role 2 and the next id, advances the id, and login's lookup then finds the user; any failure leaves the user table unchanged |
| `Auth.NewUser` | src/main/java/com/azael/taskapp/services/impl/AuthServiceImpl.java:141-149 | the row built for registration is active, has role 2, the given id and encoded password, and the request's username and e-mail |
| `Auth.ValidatedRequestPassesEntityChecks` | src/main/java/com/azael/taskapp/persistence/dto/request/auth/RegisterRequestDto.java:16-21 | a request meeting the DTO's name, username and phone constraints, with a non-blank encoded password, yields a row meeting the entity constraints |
| `Auth.AuthService.RevokeToken` | src/main/java/com/azael/taskapp/services/impl/AuthServiceImpl.java:188-193 | the revoked table gains the row (token, now) and the other tables are unchanged |

## Left out

- JWT cryptography and encoding: HS256 signing (section 3.2 of RFC 7518), the compact serialisation (RFC 7519) and Base64 decoding (section 4 of RFC 4648) are library calls, given as `compact`, `parse` and `decodedKeyLength`. The round trip "parsing an issued token gives back its claims" belongs to the library, so `Jwt.IssuedTokenIsValidForItsSubject` takes it as a hypothesis.
- The JWT library's own checks inside `parseClaimsJws`, including its rejection of expired tokens, are part of the given `parse`.
- A JWT stores `iat` and `exp` in whole seconds. The claims map keeps milliseconds.
- The "yyyy-MM-dd HH:mm:ss" rendering of the expiry depends on time zone and calendar, so it is the given `formatDate`.
- Password checking: `authenticationManager.authenticate` (including its case-insensitive user lookup) and BCrypt hashing are external, so they enter as `principal` and `passwordHash`.
- Concurrency: the non-atomic get-then-put on the `ConcurrentHashMap` and the 60-second `@Scheduled` reset in RateLimitScheduler.java are not modelled. `Reset` is an ordinary call and the model is sequential.
- Clock reads: the separate clock reads within one operation are taken as one instant `now`. For example, `buildToken` reads the clock twice.
- Refresh-token rows: the surrogate `id` column is not modelled, so `delete(refreshToken)` removes the row holding that token value. Token values are unique, so this is the same row.
- A refresh token holds a snapshot of its owner's row, where JPA would load the current row.
- The count returned by `deleteByUser` is not modelled.
- `extractUsername`, `extractClaim` and `extractExpiration` are folded into `Jwt.ExtractAllClaims`, `Jwt.SubjectOf` and `Jwt.ExpirationOf`.
- The getter `getExpirationTime` is not modelled.
- A `sub` or `exp` claim of the wrong JSON type is treated like a missing one.
- Integer widths: integers are unbounded. `count + 1` in the rate limiter cannot overflow a Java `int`, because it is at most the limit. `plusMinutes` takes a `long`.
- `Auth.AuthService.Register`: the `@Email` constraint on the entity's e-mail column is not checked, because its grammar belongs to the validation provider; `RegisterRequestDto` checks it again at the controller.
- `@Size` counts UTF-16 code units; the model counts characters.
- The exception messages ("Refresh token not found!", "Role not found", ...) are not modelled; each exception is an error constructor.
- Role and response DTOs: the `Role` entity appears only as its id.
- The `UserResponseDto` role is its id.
- The `createdAt` and `updatedAt` audit columns are not modelled.

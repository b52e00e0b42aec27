/**
 * The `RefreshToken` entity: an opaque random value owned by one user, with an expiry
 * instant fixed at creation. Instants are milliseconds on the server clock.
 */
module RefreshTokens {
  import opened Users

  const MillisPerMinute: int := 60000

  datatype RefreshToken = RefreshToken(token: string, expiryDate: int, owner: User)

  /** `LocalDateTime.plusMinutes`. */
  function PlusMinutes(instant: int, minutes: int): int
  {
    instant + minutes * MillisPerMinute
  }

  /**
   * The constructor `RefreshToken(user, expiryMinutes)`: `uuid` is the value drawn from
   * `UUID.randomUUID()` and `now` the reading of `LocalDateTime.now()`.
   */
  function NewRefreshToken(user: User, expiryMinutes: int, now: int, uuid: string): (t: RefreshToken)
    ensures t.token == uuid && t.owner == user
    ensures IsExpired(t, now) <==> expiryMinutes < 0
  {
    RefreshToken(uuid, PlusMinutes(now, expiryMinutes), user)
  }

  /** `isExpired`: the clock reads strictly after the expiry instant. */
  predicate IsExpired(t: RefreshToken, now: int)
  {
    now > t.expiryDate
  }

  /** Once expired, a token stays expired as the clock moves on. */
  lemma ExpiryIsMonotone(t: RefreshToken, now: int, later: int)
    requires IsExpired(t, now) && now <= later
    ensures IsExpired(t, later)
  {
  }

  /**
   * A token created with a non-negative lifetime is live from its creation instant up to and
   * including its expiry instant, and expired at every instant after it.
   */
  lemma LiveForItsLifetime(user: User, expiryMinutes: int, now: int, uuid: string, at: int)
    requires expiryMinutes >= 0 && at >= now
    ensures !IsExpired(NewRefreshToken(user, expiryMinutes, now, uuid), at) <==> at <= now + expiryMinutes * MillisPerMinute
    ensures !IsExpired(NewRefreshToken(user, expiryMinutes, now, uuid), now)
  {
  }
}

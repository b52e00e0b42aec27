/**
 * The revoked-token table (`RevokedToken` rows, queried by `existsByToken`): an append-only
 * record of access-token values invalidated before their natural expiry.
 */
module RevokedTokens {

  datatype RevokedToken = RevokedToken(token: string, revokedAt: int)

  /** The derived query `existsByToken`. */
  predicate ExistsByToken(revoked: seq<RevokedToken>, token: string)
  {
    exists i :: 0 <= i < |revoked| && revoked[i].token == token
  }

  /** `revokeToken`: save a new row for the value, stamped with the current instant; no duplicate check. */
  function Revoke(revoked: seq<RevokedToken>, token: string, now: int): (r: seq<RevokedToken>)
    ensures |r| == |revoked| + 1 && r[..|revoked|] == revoked
    ensures r[|revoked|] == RevokedToken(token, now)
    ensures ExistsByToken(r, token)
    ensures forall t :: t != token ==> (ExistsByToken(r, t) <==> ExistsByToken(revoked, t))
  {
    assert (revoked + [RevokedToken(token, now)])[|revoked|].token == token;
    revoked + [RevokedToken(token, now)]
  }

  /** Revocation is never undone by later revocations. */
  lemma RevokedStaysRevoked(revoked: seq<RevokedToken>, token: string, other: string, now: int)
    requires ExistsByToken(revoked, token)
    ensures ExistsByToken(Revoke(revoked, other, now), token)
  {
  }

  /**
   * Revoking a value twice is observably the same as revoking it once: every lookup answers
   * alike, although the table holds one more row.
   */
  lemma RevokeTwiceLikeOnce(revoked: seq<RevokedToken>, token: string, now1: int, now2: int, t: string)
    ensures ExistsByToken(Revoke(Revoke(revoked, token, now1), token, now2), t) <==> ExistsByToken(Revoke(revoked, token, now1), t)
    ensures |Revoke(Revoke(revoked, token, now1), token, now2)| == |revoked| + 2
  {
  }
}

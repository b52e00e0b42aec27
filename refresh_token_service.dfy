/**
 * The refresh-token table and `RefreshTokenServiceImpl`, which keeps at most one token per
 * user (create deletes the user's tokens before inserting), verifies a presented value, and
 * deletes an expired token when it is presented.
 */
module RefreshTokenStore {
  import opened Wrappers
  import opened Users
  import opened RefreshTokens

  /** The two failures of `verifyRefreshToken`, and the unique-constraint failure of `save`. */
  datatype StoreError = NotFound | Expired | DuplicateToken

  /** The `token` column is unique. */
  ghost predicate UniqueTokens(rows: seq<RefreshToken>)
  {
    forall i, j :: 0 <= i < j < |rows| ==> rows[i].token != rows[j].token
  }

  /** No user owns two rows. */
  ghost predicate OnePerUser(rows: seq<RefreshToken>)
  {
    forall i, j :: 0 <= i < j < |rows| ==> rows[i].owner.id != rows[j].owner.id
  }

  ghost predicate TableInvariant(rows: seq<RefreshToken>)
  {
    UniqueTokens(rows) && OnePerUser(rows)
  }

  /** The rows owned by user `userId`, in table order. */
  function OwnedBy(rows: seq<RefreshToken>, userId: int): (r: seq<RefreshToken>)
    ensures forall t :: t in r <==> t in rows && t.owner.id == userId
  {
    if |rows| == 0 then []
    else if rows[0].owner.id == userId then [rows[0]] + OwnedBy(rows[1..], userId)
    else OwnedBy(rows[1..], userId)
  }

  /** The derived query `findByToken`. */
  function FindByToken(rows: seq<RefreshToken>, token: string): (r: Option<RefreshToken>)
    ensures r.Some? ==> r.value in rows && r.value.token == token
    ensures r.None? <==> forall i :: 0 <= i < |rows| ==> rows[i].token != token
  {
    if |rows| == 0 then None
    else if rows[0].token == token then Some(rows[0])
    else FindByToken(rows[1..], token)
  }

  /** `DELETE FROM RefreshToken rt WHERE rt.user.id = :userId`. */
  function DeleteByUser(rows: seq<RefreshToken>, userId: int): (r: seq<RefreshToken>)
    ensures forall t :: t in r <==> t in rows && t.owner.id != userId
    ensures UniqueTokens(rows) ==> UniqueTokens(r)
    ensures OnePerUser(rows) ==> OnePerUser(r)
  {
    if |rows| == 0 then []
    else
      var rest := DeleteByUser(rows[1..], userId);
      if rows[0].owner.id == userId then rest
      else
        assert forall t :: t in rest ==> t in rows[1..];
        [rows[0]] + rest
  }

  /** `delete(refreshToken)`: removes the row holding that token value. */
  function DeleteToken(rows: seq<RefreshToken>, token: string): (r: seq<RefreshToken>)
    ensures forall t :: t in r <==> t in rows && t.token != token
    ensures UniqueTokens(rows) ==> UniqueTokens(r)
    ensures OnePerUser(rows) ==> OnePerUser(r)
  {
    if |rows| == 0 then []
    else
      var rest := DeleteToken(rows[1..], token);
      if rows[0].token == token then rest
      else
        assert forall t :: t in rest ==> t in rows[1..];
        [rows[0]] + rest
  }

  /** What `createRefreshToken` answers, and the table it leaves. */
  function CreateStep(rows: seq<RefreshToken>, user: User, expiryMinutes: int, now: int, uuid: string)
    : (r: (Result<RefreshToken, StoreError>, seq<RefreshToken>))
    ensures r.0.Success? <==> forall t :: t in rows && t.owner.id != user.id ==> t.token != uuid
    ensures r.0.Success? ==>
              && r.0.value == NewRefreshToken(user, expiryMinutes, now, uuid)
              && r.1 == DeleteByUser(rows, user.id) + [r.0.value]
    ensures r.0.Failure? ==> r.0.error == DuplicateToken && r.1 == DeleteByUser(rows, user.id)
  {
    var kept := DeleteByUser(rows, user.id);
    if FindByToken(kept, uuid).Some? then (Failure(DuplicateToken), kept)
    else (Success(NewRefreshToken(user, expiryMinutes, now, uuid)), kept + [NewRefreshToken(user, expiryMinutes, now, uuid)])
  }

  /** What `verifyRefreshToken` answers, and the table it leaves. */
  function VerifyStep(rows: seq<RefreshToken>, token: string, now: int): (r: (Result<RefreshToken, StoreError>, seq<RefreshToken>))
    ensures FindByToken(rows, token).None? ==> r == (Failure(NotFound), rows)
    ensures r.0.Success? ==> r.1 == rows && r.0.value in rows && r.0.value.token == token && !IsExpired(r.0.value, now)
    ensures r.0 == Failure(Expired) ==> r.1 == DeleteToken(rows, token)
    ensures (FindByToken(rows, token).Some? && IsExpired(FindByToken(rows, token).value, now)) ==>
              r == (Failure(Expired), DeleteToken(rows, token))
    ensures (FindByToken(rows, token).Some? && !IsExpired(FindByToken(rows, token).value, now)) ==>
              r == (Success(FindByToken(rows, token).value), rows)
    ensures r.0.Failure? ==> r.0.error != DuplicateToken
  {
    match FindByToken(rows, token)
    case None => (Failure(NotFound), rows)
    case Some(t) =>
      if IsExpired(t, now) then (Failure(Expired), DeleteToken(rows, t.token)) else (Success(t), rows)
  }

  /** Filtering distributes over concatenation. */
  lemma {:induction false} OwnedByAppend(a: seq<RefreshToken>, b: seq<RefreshToken>, userId: int)
    ensures OwnedBy(a + b, userId) == OwnedBy(a, userId) + OwnedBy(b, userId)
  {
    if |a| > 0 {
      assert (a + b)[1..] == a[1..] + b;
      OwnedByAppend(a[1..], b, userId);
    } else {
      assert a + b == b;
    }
  }

  /** Deleting a user's rows empties that user's share of the table and leaves every other user's share as it was. */
  lemma {:induction false} OwnedAfterDelete(rows: seq<RefreshToken>, userId: int, other: int)
    ensures OwnedBy(DeleteByUser(rows, userId), other) == if other == userId then [] else OwnedBy(rows, other)
  {
    if |rows| > 0 {
      OwnedAfterDelete(rows[1..], userId, other);
      if rows[0].owner.id != userId {
        var rest := DeleteByUser(rows[1..], userId);
        assert DeleteByUser(rows, userId) == [rows[0]] + rest;
        assert ([rows[0]] + rest)[1..] == rest;
      }
    }
  }

  /** `deleteRefreshToken` on a user without tokens changes nothing. */
  lemma {:induction false} DeleteWithoutTokensIsNoOp(rows: seq<RefreshToken>, userId: int)
    requires OwnedBy(rows, userId) == []
    ensures DeleteByUser(rows, userId) == rows
  {
    if |rows| > 0 {
      assert rows[0] !in OwnedBy(rows, userId);
      DeleteWithoutTokensIsNoOp(rows[1..], userId);
      assert [rows[0]] + rows[1..] == rows;
    }
  }

  /** A successful create leaves exactly one row for the user, the new one, and every other user's rows unchanged. */
  lemma CreateReplacesUsersToken(rows: seq<RefreshToken>, user: User, expiryMinutes: int, now: int, uuid: string, other: int)
    requires CreateStep(rows, user, expiryMinutes, now, uuid).0.Success?
    ensures var (r, after) := CreateStep(rows, user, expiryMinutes, now, uuid);
            OwnedBy(after, user.id) == [r.value] &&
            r.value.token == uuid && r.value.owner == user &&
            (other != user.id ==> OwnedBy(after, other) == OwnedBy(rows, other))
  {
    var kept := DeleteByUser(rows, user.id);
    var t := NewRefreshToken(user, expiryMinutes, now, uuid);
    OwnedByAppend(kept, [t], user.id);
    OwnedByAppend(kept, [t], other);
    OwnedAfterDelete(rows, user.id, user.id);
    OwnedAfterDelete(rows, user.id, other);
    assert OwnedBy([t], user.id) == [t] + OwnedBy([t][1..], user.id);
    if other != user.id {
      assert OwnedBy([t], other) == OwnedBy([t][1..], other);
    }
  }

  /**
   * Create keeps the table invariant: the user's old rows are gone before the new one is
   * appended, and a value already in the table is refused.
   */
  lemma CreateKeepsInvariant(rows: seq<RefreshToken>, user: User, expiryMinutes: int, now: int, uuid: string)
    requires TableInvariant(rows)
    ensures TableInvariant(CreateStep(rows, user, expiryMinutes, now, uuid).1)
  {
  }

  /**
   * Token values are unique, so a value names at most one row: every row holding the value
   * is the one the lookup returns.
   */
  lemma LookupFindsTheOnlyRow(rows: seq<RefreshToken>, token: string, i: int)
    requires UniqueTokens(rows)
    requires 0 <= i < |rows| && rows[i].token == token
    ensures FindByToken(rows, token) == Some(rows[i])
  {
  }

  /**
   * Two successful creates for the same user (with distinct random values) orphan the first
   * token: verifying it afterwards fails as not found and leaves the table unchanged.
   */
  lemma SecondCreateOrphansFirst(
    rows: seq<RefreshToken>, user: User, minutes1: int, now1: int, uuid1: string,
    minutes2: int, now2: int, uuid2: string, now3: int)
    requires uuid1 != uuid2
    requires CreateStep(rows, user, minutes1, now1, uuid1).0.Success?
    requires CreateStep(CreateStep(rows, user, minutes1, now1, uuid1).1, user, minutes2, now2, uuid2).0.Success?
    ensures var after := CreateStep(CreateStep(rows, user, minutes1, now1, uuid1).1, user, minutes2, now2, uuid2).1;
            VerifyStep(after, uuid1, now3) == (Failure(NotFound), after)
  {
  }

  /**
   * Presenting an expired token fails with `Expired` and removes it, so presenting the same
   * value again, at any instant, fails with `NotFound`.
   */
  lemma ExpiredTokenCleansUp(rows: seq<RefreshToken>, token: string, now: int, later: int)
    requires VerifyStep(rows, token, now).0 == Failure(Expired)
    ensures var after := VerifyStep(rows, token, now).1;
            |after| == |rows| - 1 || !UniqueTokens(rows)
    ensures VerifyStep(VerifyStep(rows, token, now).1, token, later).0 == Failure(NotFound)
  {
    var t := FindByToken(rows, token).value;
    if UniqueTokens(rows) {
      var k :| 0 <= k < |rows| && rows[k] == t;
      DeleteTokenRemovesOne(rows, token, k);
    }
  }

  /** With unique token values, deleting a present value removes exactly one row. */
  lemma {:induction false} DeleteTokenRemovesOne(rows: seq<RefreshToken>, token: string, k: int)
    requires UniqueTokens(rows) && 0 <= k < |rows| && rows[k].token == token
    ensures |DeleteToken(rows, token)| == |rows| - 1
  {
    if k == 0 {
      DeleteAbsentToken(rows[1..], token);
    } else {
      assert rows[1..][k - 1] == rows[k];
      assert UniqueTokens(rows[1..]) by {
        forall i, j | 0 <= i < j < |rows[1..]| ensures rows[1..][i].token != rows[1..][j].token {
          assert rows[1..][i] == rows[i + 1] && rows[1..][j] == rows[j + 1];
        }
      }
      DeleteTokenRemovesOne(rows[1..], token, k - 1);
    }
  }

  /** Deleting an absent value removes nothing. */
  lemma {:induction false} DeleteAbsentToken(rows: seq<RefreshToken>, token: string)
    requires forall i :: 0 <= i < |rows| ==> rows[i].token != token
    ensures DeleteToken(rows, token) == rows
  {
    if |rows| > 0 {
      DeleteAbsentToken(rows[1..], token);
      assert [rows[0]] + rows[1..] == rows;
    }
  }

  /**
   * After a user's tokens are deleted (logout), presenting one of that user's former token
   * values fails as not found.
   */
  lemma DeletedTokenIsNotFound(rows: seq<RefreshToken>, userId: int, token: string, now: int)
    requires UniqueTokens(rows)
    requires FindByToken(rows, token).Some? && FindByToken(rows, token).value.owner.id == userId
    ensures VerifyStep(DeleteByUser(rows, userId), token, now) == (Failure(NotFound), DeleteByUser(rows, userId))
  {
  }

  /** `RefreshTokenServiceImpl` over its table. */
  class RefreshTokenService {
    var rows: seq<RefreshToken>

    ghost predicate Valid()
      reads this
    {
      TableInvariant(rows)
    }

    constructor ()
      ensures Valid() && rows == []
    {
      rows := [];
    }

    /** `createRefreshToken`: delete the user's tokens, then save a new one. */
    method CreateRefreshToken(user: User, expiryMinutes: int, now: int, uuid: string)
      returns (r: Result<RefreshToken, StoreError>)
      requires Valid()
      modifies this
      ensures Valid()
      ensures (r, rows) == CreateStep(old(rows), user, expiryMinutes, now, uuid)
      ensures r.Success? ==> OwnedBy(rows, user.id) == [r.value] && r.value.token == uuid
      ensures forall other :: other != user.id ==> OwnedBy(rows, other) == OwnedBy(old(rows), other)
    {
      CreateKeepsInvariant(rows, user, expiryMinutes, now, uuid);
      forall other | other != user.id ensures OwnedBy(DeleteByUser(rows, user.id), other) == OwnedBy(rows, other) {
        OwnedAfterDelete(rows, user.id, other);
      }
      DeleteRefreshToken(user.id);
      var refreshToken := NewRefreshToken(user, expiryMinutes, now, uuid);
      if FindByToken(rows, refreshToken.token).Some? {
        return Failure(DuplicateToken);
      }
      rows := rows + [refreshToken];
      r := Success(refreshToken);
      forall other ensures CreateStep(old(rows), user, expiryMinutes, now, uuid).0.Success? && other != user.id ==>
        OwnedBy(rows, other) == OwnedBy(old(rows), other)
      {
        CreateReplacesUsersToken(old(rows), user, expiryMinutes, now, uuid, other);
      }
      CreateReplacesUsersToken(old(rows), user, expiryMinutes, now, uuid, user.id);
    }

    /** `verifyRefreshToken`: not found, expired (row deleted first), or the live row. */
    method VerifyRefreshToken(token: string, now: int) returns (r: Result<RefreshToken, StoreError>)
      requires Valid()
      modifies this
      ensures Valid()
      ensures (r, rows) == VerifyStep(old(rows), token, now)
    {
      var found := FindByToken(rows, token);
      if found.None? {
        return Failure(NotFound);
      }
      var refreshToken := found.value;
      if IsExpired(refreshToken, now) {
        rows := DeleteToken(rows, refreshToken.token);
        return Failure(Expired);
      }
      return Success(refreshToken);
    }

    /** `deleteRefreshToken`: remove every token of the user. */
    method DeleteRefreshToken(userId: int)
      requires Valid()
      modifies this
      ensures Valid()
      ensures rows == DeleteByUser(old(rows), userId)
      ensures OwnedBy(rows, userId) == []
      ensures forall other :: other != userId ==> OwnedBy(rows, other) == OwnedBy(old(rows), other)
    {
      rows := DeleteByUser(rows, userId);
      forall other ensures OwnedBy(rows, other) == if other == userId then [] else OwnedBy(old(rows), other) {
        OwnedAfterDelete(old(rows), userId, other);
      }
    }
  }
}

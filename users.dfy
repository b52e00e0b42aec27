/**
 * The user table that the session layer reads and, on registration, appends to.
 * Only the columns the authentication layer touches are kept.
 */
module Users {
  import opened Wrappers

  /** A row of the `users` table (the `User` JPA entity); `roleId` stands for the `Role` reference. */
  datatype User = User(
    id: int,
    name: string,
    username: string,
    email: string,
    phone: string,
    passwordHash: string,
    isActive: bool,
    roleId: int)

  /** `UserResponseDto`: the user as returned to clients, without the password hash. */
  datatype UserView = UserView(
    id: int,
    name: string,
    username: string,
    email: string,
    phone: string,
    isActive: bool,
    roleId: int)

  /** `UserMapper.toDTO`. */
  function ToView(u: User): UserView
  {
    UserView(u.id, u.name, u.username, u.email, u.phone, u.isActive, u.roleId)
  }

  /** The first row satisfying the derived query `findByUsername` (exact, case-sensitive match). */
  function FindByUsername(users: seq<User>, username: string): (r: Option<User>)
    ensures r.Some? ==> r.value in users && r.value.username == username
    ensures r.None? ==> forall i :: 0 <= i < |users| ==> users[i].username != username
  {
    if |users| == 0 then None
    else if users[0].username == username then Some(users[0])
    else FindByUsername(users[1..], username)
  }

  /** The derived query `findByUsernameAndIsActive(username, true)`. */
  function FindActiveByUsername(users: seq<User>, username: string): (r: Option<User>)
    ensures r.Some? ==> r.value in users && r.value.username == username && r.value.isActive
    ensures r.None? ==> forall i :: 0 <= i < |users| ==> !(users[i].username == username && users[i].isActive)
  {
    if |users| == 0 then None
    else if users[0].username == username && users[0].isActive then Some(users[0])
    else FindActiveByUsername(users[1..], username)
  }

  /** The unique constraints of the `users` table: no two rows share a username or an e-mail. */
  ghost predicate UniqueColumns(users: seq<User>)
  {
    forall i, j :: 0 <= i < j < |users| ==>
      users[i].username != users[j].username && users[i].email != users[j].email
  }

  /** Whether inserting `u` would break a unique constraint. */
  function Clashes(users: seq<User>, u: User): (r: bool)
    ensures !r <==> forall i :: 0 <= i < |users| ==> users[i].username != u.username && users[i].email != u.email
  {
    exists i :: 0 <= i < |users| && (users[i].username == u.username || users[i].email == u.email)
  }

  /** Inserting `u` into a table that meets the unique constraints breaks them exactly when `Clashes` says so. */
  lemma ClashesBreaksUnique(users: seq<User>, u: User)
    requires UniqueColumns(users)
    ensures Clashes(users, u) <==> !UniqueColumns(users + [u])
  {
    var all := users + [u];
    if Clashes(users, u) {
      var i :| 0 <= i < |users| && (users[i].username == u.username || users[i].email == u.email);
      assert all[i] == users[i] && all[|users|] == u;
    } else {
      forall i, j | 0 <= i < j < |all|
        ensures all[i].username != all[j].username && all[i].email != all[j].email
      {
        if j == |users| {
          assert all[i] == users[i] && all[j] == u;
        } else {
          assert all[i] == users[i] && all[j] == users[j];
        }
      }
    }
  }

  /** `@NotBlank`: the value, with leading and trailing characters up to U+0020 trimmed, is not empty. */
  predicate Blank(s: string)
  {
    forall i :: 0 <= i < |s| ==> s[i] <= ' '
  }

  /** `@Pattern(regexp = "^[0-9]*$")`. */
  predicate AllDigits(s: string)
  {
    forall i :: 0 <= i < |s| ==> '0' <= s[i] <= '9'
  }

  /**
   * The Bean Validation constraints declared on the `User` entity's columns, which the
   * persistence provider checks before inserting a row.
   */
  predicate SatisfiesEntityConstraints(u: User)
  {
    && !Blank(u.name) && 3 <= |u.name| <= 50
    && !Blank(u.username) && 3 <= |u.username| <= 20
    && !Blank(u.phone) && |u.phone| == 10 && AllDigits(u.phone)
    && !Blank(u.passwordHash)
  }

  /** The client view carries everything but the password hash: users differing only in their hash look alike. */
  lemma ViewHidesPasswordHash(u: User, hash: string)
    ensures ToView(u) == ToView(u.(passwordHash := hash))
    ensures ToView(u).id == u.id && ToView(u).username == u.username && ToView(u).isActive == u.isActive
  {
  }

  /** With unique usernames, the active-user lookup finds the same row as the plain lookup, when that row is active. */
  lemma ActiveLookupAgrees(users: seq<User>, username: string)
    requires UniqueColumns(users)
    ensures FindActiveByUsername(users, username) ==
            (match FindByUsername(users, username)
             case Some(u) => if u.isActive then Some(u) else None
             case None => None)
  {
  }

  /** A user appended with a username no existing row has, and active, is what the active-user lookup finds. */
  lemma {:induction false} AppendedUserIsFound(users: seq<User>, u: User)
    requires u.isActive
    requires forall i :: 0 <= i < |users| ==> users[i].username != u.username
    ensures FindActiveByUsername(users + [u], u.username) == Some(u)
  {
    if |users| > 0 {
      assert (users + [u])[1..] == users[1..] + [u];
      AppendedUserIsFound(users[1..], u);
    } else {
      assert users + [u] == [u];
    }
  }
}

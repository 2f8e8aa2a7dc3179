/** The user schema: its field constraints as a validity predicate and the users table invariant. */
module UserModel {
  import opened JsString
  import opened DocumentStore

  datatype User = User(id: Id, username: string, password: string, createdAt: int, updatedAt: int)

  const UsernameMinLength := 3
  const UsernameMaxLength := 20
  const PasswordMinLength := 6

  /** What the schema accepts: a trimmed username of 3 to 20 UTF-16 units, a password of at least 6,
      and the two timestamps a new document gets. */
  predicate UserSchemaValid(u: User) {
    && IsTrimmed(u.username)
    && UsernameMinLength <= Utf16Length(u.username) <= UsernameMaxLength
    && Utf16Length(u.password) >= PasswordMinLength
    && u.createdAt == u.updatedAt
  }

  /** `new User({username, password})` at time `now`: the `trim` setter applies to the username,
      the password is kept as it is, and `timestamps` sets both dates. */
  function NewUser(id: Id, username: string, password: string, now: int): (u: User)
    ensures u.id == id && u.password == password && u.username == Trim(username)
    ensures u.createdAt == now && u.updatedAt == now
  {
    User(id, Trim(username), password, now, now)
  }

  predicate UsernameTaken(users: seq<User>, name: string) {
    exists i :: 0 <= i < |users| && users[i].username == name
  }

  /** `user.save()` succeeds: the document passes validation and the unique index on `username`. */
  predicate CanInsertUser(users: seq<User>, u: User) {
    UserSchemaValid(u) && !UsernameTaken(users, u.username)
  }

  function UserIds(users: seq<User>): set<Id> {
    set i | 0 <= i < |users| :: users[i].id
  }

  /** The users table: every document valid, ids below `bound`, ids and usernames unique. */
  predicate UsersValid(users: seq<User>, bound: Id) {
    && (forall i :: 0 <= i < |users| ==> users[i].id < bound && UserSchemaValid(users[i]))
    && (forall i, j :: 0 <= i < j < |users| ==> users[i].id != users[j].id)
    && (forall i, j :: 0 <= i < j < |users| ==> users[i].username != users[j].username)
  }

  /** A successful save keeps the table valid and adds exactly the new id to the set of user ids. */
  lemma InsertUserKeepsValid(users: seq<User>, bound: Id, u: User)
    requires UsersValid(users, bound) && CanInsertUser(users, u) && u.id == bound
    ensures UsersValid(users + [u], bound + 1)
    ensures UserIds(users + [u]) == UserIds(users) + {u.id}
  {
    var t := users + [u];
    assert forall i :: 0 <= i < |users| ==> t[i] == users[i];
    assert t[|users|] == u;
    forall i, j | 0 <= i < j < |t| ensures t[i].id != t[j].id && t[i].username != t[j].username {
      if j == |users| {
        assert t[i] == users[i];
      }
    }
    assert UserIds(t) == UserIds(users) + {u.id} by {
      forall x | x in UserIds(t) ensures x in UserIds(users) + {u.id} {
        var i :| 0 <= i < |t| && t[i].id == x;
        if i < |users| {
          assert users[i].id == x;
        }
      }
      forall x | x in UserIds(users) ensures x in UserIds(t) {
        var i :| 0 <= i < |users| && users[i].id == x;
        assert t[i].id == x;
      }
      assert t[|users|].id == u.id;
    }
  }

  /** A larger id bound keeps the table valid (ids handed out to other collections). */
  lemma UsersValidWeaken(users: seq<User>, bound: Id, bound': Id)
    requires UsersValid(users, bound) && bound <= bound'
    ensures UsersValid(users, bound')
  {
  }
}

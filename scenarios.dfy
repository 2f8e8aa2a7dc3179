/**
 * Properties of request sequences against one store: what a second request sees after a first one
 * changed the tables.
 */
module Scenarios {
  import opened Wrappers
  import opened JsValue
  import opened JsString
  import opened Hex
  import opened DocumentStore
  import opened UserModel
  import opened SessionModel
  import opened NoteModel
  import opened Http
  import opened AuthRoutes
  import opened AuthMiddleware
  import opened NotesRoutes
  import opened Server

  /** Sending the same signup body twice never creates two accounts. After a successful first signup
      the second is refused with 409 when the username had nothing to trim. When it had padding, the
      verbatim duplicate check misses the stored (trimmed) name, and the save then fails with 500. */
  method SignupTwice(store: Store, username: Json, password: Json, now1: int, now2: int)
    returns (first: Reply, second: Reply)
    requires store.Valid()
    modifies store
    ensures store.Valid()
    ensures second.status != 201
    ensures |store.users| <= |old(store.users)| + 1
    ensures first.status == 201 ==>
      && username.Str?
      && second.status == (if Trim(username.s) == username.s then 409 else 500)
  {
    first := store.Signup(username, password, now1);
    ghost var afterFirst := store.users;
    second := store.Signup(username, password, now2);
    if first.status == 201 {
      var last := |afterFirst| - 1;
      assert afterFirst[last].username == Trim(username.s);
      if Trim(username.s) == username.s {
        assert UsernameTaken(afterFirst, username.s);
      } else {
        assert UsernameTaken(afterFirst, Trim(username.s));
      }
    }
  }

  /** Deleting the same note twice answers 200 and then 404: ids are unique, so the first delete
      removed the only note with that id. A first attempt that fails changes nothing and is repeated
      exactly. */
  method DeleteTwice(store: Store, uid: Id, id: IdParam) returns (first: Reply, second: Reply)
    requires store.Valid()
    modifies store
    ensures store.Valid()
    ensures first.status == 200 ==> second == Reply(404, Message(NotFoundMessage))
    ensures first.status != 200 ==> second == first && store.notes == old(store.notes)
  {
    ghost var before := store.notes;
    first := store.DeleteNote(uid, id);
    second := store.DeleteNote(uid, id);
    if first.status == 200 {
      RemovedNoteNotFound(before, old(store.nextId), UserIds(old(store.users)), FindOwnedNote(before, uid, id.id).value, uid);
    }
  }

  /** GET /api/notes/:id finds a stored note for its owner, and answers 404 to every other user. */
  lemma StoredNoteFetchedByOwnerOnly(store: Store, k: nat, uid: Id)
    requires store.Valid() && k < |store.notes|
    ensures store.GetNote(uid, WellFormed(store.notes[k].id)) ==
      if store.notes[k].userId == uid then Reply(200, NoteBody(store.notes[k]))
      else Reply(404, Message(NotFoundMessage))
  {
    FindOwnedNoteById(store.notes, store.nextId, UserIds(store.users), k, uid);
  }

  /** A created note can be fetched back, unchanged, by its owner and by nobody else. */
  method CreateThenGet(store: Store, uid: Id, other: Id, title: Json, content: Json, now: int)
    returns (created: Reply, own: Reply, foreign: Reply)
    requires store.Valid() && uid in UserIds(store.users) && other != uid
    modifies store
    ensures store.Valid()
    ensures created.status == 201 ==>
      && created.body.NoteBody?
      && own == Reply(200, created.body)
      && foreign == Reply(404, Message(NotFoundMessage))
    ensures created.status != 201 ==> own == created && foreign == created
  {
    created := store.CreateNote(uid, title, content, now);
    if created.status != 201 {
      return created, created, created;
    }
    var note := created.body.note;
    var k := |store.notes| - 1;
    assert store.notes[k] == note;
    StoredNoteFetchedByOwnerOnly(store, k, uid);
    StoredNoteFetchedByOwnerOnly(store, k, other);
    own := store.GetNote(uid, WellFormed(note.id));
    foreign := store.GetNote(other, WellFormed(note.id));
  }

  /** The token a successful login returns opens the note routes as the matched user until it
      expires. */
  method LoginThenAuthenticate(store: Store, username: Json, password: Json, now: int, later: int,
                               random: seq<Byte>, re: RegexEngine)
    returns (login: Reply, auth: AuthOutcome)
    requires store.Valid() && |random| == 32
    requires forall j :: 0 <= j < |store.sessions| ==> store.sessions[j].token != LoginToken(random)
    requires later <= now + SessionTtlMs
    modifies store
    ensures store.Valid()
    ensures login.status == 200 ==>
      && login.body.LoginBody? && login.body.token == LoginToken(random)
      && exists i :: 0 <= i < |store.users| && store.users[i].username == login.body.username
                      && auth == Next(store.users[i].id)
  {
    login := store.Login(username, password, now, random, re);
    if login.status == 200 {
      var i := FindLoginUser(store.users, CastFilter(username).value, CastFilter(password).value, re).value;
      var session := Session(old(store.nextId), store.users[i].id, LoginToken(random), now + SessionTtlMs);
      assert store.sessions == old(store.sessions) + [session];
      NewSessionAuthenticates(old(store.sessions), session, later);
    }
    auth := store.Authenticate(Some(BearerPrefix + LoginToken(random)), later);
  }

  /** After logout, the same Authorization header no longer authenticates. */
  method LogoutEndsSession(store: Store, header: Option<string>, now: int) returns (logout: Reply, auth: AuthOutcome)
    requires store.Valid() && TokensDistinct(store.sessions)
    modifies store
    ensures store.Valid()
    ensures logout.status == 200
    ensures auth == Respond(Reply(401, Message(if HeaderPresent(header) then InvalidSessionMessage else NoTokenMessage)))
  {
    ghost var before := store.sessions;
    logout := store.Logout(header);
    auth := store.Authenticate(header, now);
    if HeaderPresent(header) {
      var token := BearerToken(header.value);
      var found := FindSessionByToken(before, token);
      if found.Some? {
        RemovedTokenNotFound(before, found.value);
      }
    }
  }

  /** Once `authenticate` has found a session expired and deleted it, the same header is refused as
      an unknown session, whatever the time. */
  method ExpiredStaysGone(store: Store, header: Option<string>, now: int, later: int)
    returns (first: AuthOutcome, second: AuthOutcome)
    requires store.Valid() && TokensDistinct(store.sessions)
    modifies store
    ensures store.Valid()
    ensures first == Respond(Reply(401, Message(ExpiredMessage))) ==>
      second == Respond(Reply(401, Message(InvalidSessionMessage)))
  {
    ghost var before := store.sessions;
    first := store.Authenticate(header, now);
    second := store.Authenticate(header, later);
    if first == Respond(Reply(401, Message(ExpiredMessage))) {
      RemovedTokenNotFound(before, FindSessionByToken(before, BearerToken(header.value)).value);
    }
  }

  /** A login body naming an existing user and sending {"$gt": ""} or {"$ne": ""} as the password
      gets in without the password: 200 with that user's name and a new session for that user. */
  method LoginWithoutPasswordRequest(store: Store, j: nat, op: OperatorName, now: int, random: seq<Byte>,
                                     re: RegexEngine)
    returns (reply: Reply)
    requires store.Valid() && j < |store.users| && |random| == 32 && op != RegexOp
    modifies store
    ensures store.Valid()
    ensures reply == Reply(200, LoginBody(LoginSuccessMessage, LoginToken(random), old(store.users[j].username)))
    ensures store.sessions == old(store.sessions) +
      [Session(old(store.nextId), old(store.users[j].id), LoginToken(random), now + SessionTtlMs)]
    ensures store.users == old(store.users) && store.notes == old(store.notes)
  {
    LoginWithoutPassword(store.users, store.nextId, j, re);
    assert Truthy(Str(store.users[j].username));
    reply := store.Login(Str(store.users[j].username), Operator(op, ""), now, random, re);
  }

  /** A login body with {"$gt": ""} as both username and password gets in as the first user of a
      non-empty store: 200 with that user's name and a new session for that user. */
  method LoginAsFirstUserRequest(store: Store, now: int, random: seq<Byte>, re: RegexEngine)
    returns (reply: Reply)
    requires store.Valid() && store.users != [] && |random| == 32
    modifies store
    ensures store.Valid()
    ensures reply == Reply(200, LoginBody(LoginSuccessMessage, LoginToken(random), old(store.users[0].username)))
    ensures store.sessions == old(store.sessions) +
      [Session(old(store.nextId), old(store.users[0].id), LoginToken(random), now + SessionTtlMs)]
    ensures store.users == old(store.users) && store.notes == old(store.notes)
  {
    LoginAsFirstUser(store.users, store.nextId, re);
    reply := store.Login(Operator(GtOp, ""), Operator(GtOp, ""), now, random, re);
  }
}

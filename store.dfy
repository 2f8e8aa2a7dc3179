/**
 * The server's state (the users, sessions and notes collections) and one
 * method per request handler: signup, login, logout, the `authenticate`
 * middleware, and the five note routes behind it. The clock, the random bytes
 * of a token and the regular-expression engine are parameters.
 */
module Server {
  import opened Wrappers
  import opened JsValue
  import opened Hex
  import opened DocumentStore
  import opened UserModel
  import opened SessionModel
  import opened NoteModel
  import opened Http
  import opened AuthRoutes
  import opened AuthMiddleware
  import opened NotesRoutes

  /** What `authenticate` does with a request: either it sets `req.userId` and calls `next`, or it
      answers; never both. */
  datatype AuthOutcome = Next(userId: Id) | Respond(reply: Reply)

  /** The five routes mounted behind `authenticate`. */
  datatype NoteRequest =
    | ListRequest(search: string)                             // GET /api/notes?search=
    | GetRequest(id: IdParam)                                 // GET /api/notes/:id
    | CreateRequest(title: Json, content: Json)               // POST /api/notes
    | UpdateRequest(id: IdParam, title: Json, content: Json)  // PUT /api/notes/:id
    | DeleteRequest(id: IdParam)                              // DELETE /api/notes/:id

  /** Every note that `after` gained or lost relative to `before` belongs to `uid`. */
  predicate ChangesOnlyOwnNotes(before: seq<Note>, after: seq<Note>, uid: Id) {
    && (forall n :: n in after && n !in before ==> n.userId == uid)
    && (forall n :: n in before && n !in after ==> n.userId == uid)
  }

  /** Appending a note of `uid` changes only notes of `uid`. */
  lemma AppendChangesOnlyOwnNotes(before: seq<Note>, n: Note, uid: Id)
    requires n.userId == uid
    ensures ChangesOnlyOwnNotes(before, before + [n], uid)
  {
  }

  /** Every note a reply shows belongs to `uid`. */
  predicate ShowsOnlyOwnNotes(reply: Reply, uid: Id) {
    && (reply.body.NoteBody? ==> reply.body.note.userId == uid)
    && (reply.body.NoteList? ==> forall n :: n in reply.body.notes ==> n.userId == uid)
  }

  class Store {
    var users: seq<User>
    var sessions: seq<Session>
    var notes: seq<Note>
    /** The next ObjectId the store hands out; every id in use is below it. */
    var nextId: Id

    /** The schemas' constraints as table invariants, plus unique ids and owners that exist. */
    ghost predicate Valid()
      reads this
    {
      && UsersValid(users, nextId)
      && SessionsValid(sessions, nextId, UserIds(users))
      && NotesValid(notes, nextId, UserIds(users))
    }

    constructor ()
      ensures Valid()
      ensures users == [] && sessions == [] && notes == []
    {
      users, sessions, notes, nextId := [], [], [], 0;
    }

    /** `user.save()` once validation and the unique index on `username` accepted the document; the
        new document takes the next id. */
    method SaveUser(user: User)
      requires Valid() && CanInsertUser(users, user) && user.id == nextId
      modifies this
      ensures Valid()
      ensures users == old(users) + [user] && nextId == old(nextId) + 1
      ensures sessions == old(sessions) && notes == old(notes)
    {
      InsertUserKeepsValid(users, nextId, user);
      SessionsValidWeaken(sessions, nextId, UserIds(users), nextId + 1, UserIds(users + [user]));
      NotesValidWeaken(notes, nextId, UserIds(users), nextId + 1, UserIds(users + [user]));
      users, nextId := users + [user], nextId + 1;
    }

    /** `new Session({...})` then `session.save()`, for a known user; the new document takes the next id. */
    method SaveSession(session: Session)
      requires Valid() && session.id == nextId && session.userId in UserIds(users)
      modifies this
      ensures Valid()
      ensures sessions == old(sessions) + [session] && nextId == old(nextId) + 1
      ensures users == old(users) && notes == old(notes)
    {
      InsertSessionKeepsValid(sessions, nextId, UserIds(users), session);
      UsersValidWeaken(users, nextId, nextId + 1);
      NotesValidWeaken(notes, nextId, UserIds(users), nextId + 1, UserIds(users));
      sessions, nextId := sessions + [session], nextId + 1;
    }

    /** `note.save()` for a note that passed validation, owned by a known user; it takes the next id. */
    method SaveNote(note: Note)
      requires Valid() && note.id == nextId && note.userId in UserIds(users) && NoteStored(note)
      modifies this
      ensures Valid()
      ensures notes == old(notes) + [note] && nextId == old(nextId) + 1
      ensures users == old(users) && sessions == old(sessions)
    {
      InsertNoteKeepsValid(notes, nextId, UserIds(users), note);
      UsersValidWeaken(users, nextId, nextId + 1);
      SessionsValidWeaken(sessions, nextId, UserIds(users), nextId + 1, UserIds(users));
      notes, nextId := notes + [note], nextId + 1;
    }

    /** The write half of `findOneAndUpdate`: the `k`-th note becomes `note`, same id and owner. */
    method ReplaceNoteAt(k: nat, note: Note)
      requires Valid() && k < |notes|
      requires note.id == notes[k].id && note.userId == notes[k].userId && NoteStored(note)
      modifies this
      ensures Valid()
      ensures notes == old(notes)[k := note]
      ensures users == old(users) && sessions == old(sessions) && nextId == old(nextId)
    {
      ReplaceNoteKeepsValid(notes, nextId, UserIds(users), k, note);
      notes := notes[k := note];
    }

    /** `Session.deleteOne`: the session at position `k` is removed. */
    method DeleteSessionAt(k: nat)
      requires Valid() && k < |sessions|
      modifies this
      ensures Valid()
      ensures sessions == RemoveAt(old(sessions), k)
      ensures users == old(users) && notes == old(notes) && nextId == old(nextId)
    {
      RemoveSessionKeepsValid(sessions, nextId, UserIds(users), k);
      sessions := RemoveAt(sessions, k);
    }

    /** The write half of `findOneAndDelete` on notes: the note at position `k` is removed. */
    method DeleteNoteAt(k: nat)
      requires Valid() && k < |notes|
      modifies this
      ensures Valid()
      ensures notes == RemoveAt(old(notes), k)
      ensures users == old(users) && sessions == old(sessions) && nextId == old(nextId)
    {
      RemoveNoteKeepsValid(notes, nextId, UserIds(users), k);
      notes := RemoveAt(notes, k);
    }

    /** POST /api/auth/signup */
    method Signup(username: Json, password: Json, now: int) returns (reply: Reply)
      requires Valid()
      modifies this
      ensures Valid()
      ensures sessions == old(sessions) && notes == old(notes)
      ensures SignupInputError(username, password).Some? ==>
        && reply == Reply(400, Message(SignupInputError(username, password).value))
        && users == old(users) && nextId == old(nextId)
      ensures SignupInputError(username, password).None? && UsernameTaken(old(users), username.s) ==>
        && reply == Reply(409, Message(DuplicateMessage))
        && users == old(users) && nextId == old(nextId)
      ensures SignupInputError(username, password).None? && !UsernameTaken(old(users), username.s) ==>
        var u := NewUser(old(nextId), username.s, password.s, now);
        if CanInsertUser(old(users), u) then
          && reply == Reply(201, Message(SignupSuccessMessage))
          && users == old(users) + [u] && nextId == old(nextId) + 1
        else
          && reply == Reply(500, Message(SignupErrorMessage))
          && users == old(users) && nextId == old(nextId)
    {
      var inputError := SignupInputError(username, password);
      if inputError.Some? {
        return Reply(400, Message(inputError.value));
      }
      if UsernameTaken(users, username.s) {
        return Reply(409, Message(DuplicateMessage));
      }
      var user := NewUser(nextId, username.s, password.s, now);
      if !CanInsertUser(users, user) {
        return Reply(500, Message(SignupErrorMessage));
      }
      SaveUser(user);
      reply := Reply(201, Message(SignupSuccessMessage));
    }

    /** POST /api/auth/login; `random` is what `crypto.randomBytes(32)` returned. */
    method Login(username: Json, password: Json, now: int, random: seq<Byte>, re: RegexEngine) returns (reply: Reply)
      requires Valid() && |random| == 32
      modifies this
      ensures Valid()
      ensures users == old(users) && notes == old(notes)
      ensures !Truthy(username) || !Truthy(password) ==>
        && reply == Reply(400, Message(RequiredMessage))
        && sessions == old(sessions) && nextId == old(nextId)
      ensures Truthy(username) && Truthy(password) && (CastFilter(username).None? || CastFilter(password).None?) ==>
        && reply == Reply(500, Message(LoginErrorMessage))
        && sessions == old(sessions) && nextId == old(nextId)
      ensures Truthy(username) && Truthy(password) && CastFilter(username).Some? && CastFilter(password).Some? ==>
        match FindLoginUser(old(users), CastFilter(username).value, CastFilter(password).value, re)
        case None =>
          && reply == Reply(401, Message(InvalidCredentialsMessage))
          && sessions == old(sessions) && nextId == old(nextId)
        case Some(i) =>
          var token := LoginToken(random);
          && reply == Reply(200, LoginBody(LoginSuccessMessage, token, old(users)[i].username))
          && sessions == old(sessions) + [Session(old(nextId), old(users)[i].id, token, now + SessionTtlMs)]
          && nextId == old(nextId) + 1
    {
      if !Truthy(username) || !Truthy(password) {
        return Reply(400, Message(RequiredMessage));
      }
      var usernameFilter, passwordFilter := CastFilter(username), CastFilter(password);
      if usernameFilter.None? || passwordFilter.None? {
        return Reply(500, Message(LoginErrorMessage));
      }
      var found := FindLoginUser(users, usernameFilter.value, passwordFilter.value, re);
      if found.None? {
        return Reply(401, Message(InvalidCredentialsMessage));
      }
      var user := users[found.value];
      var token := LoginToken(random);
      assert user.id in UserIds(users);
      SaveSession(Session(nextId, user.id, token, now + SessionTtlMs));
      reply := Reply(200, LoginBody(LoginSuccessMessage, token, user.username));
    }

    /** POST /api/auth/logout */
    method Logout(header: Option<string>) returns (reply: Reply)
      requires Valid()
      modifies this
      ensures Valid()
      ensures reply == Reply(200, Message(LogoutMessage))
      ensures users == old(users) && notes == old(notes) && nextId == old(nextId)
      ensures !HeaderPresent(header) ==> sessions == old(sessions)
      ensures HeaderPresent(header) ==>
        match FindSessionByToken(old(sessions), BearerToken(header.value))
        case None => sessions == old(sessions)
        case Some(i) => sessions == RemoveAt(old(sessions), i)
      ensures |sessions| >= |old(sessions)| - 1
      ensures forall s :: s in old(sessions) && s !in sessions ==>
        HeaderPresent(header) && s.token == BearerToken(header.value)
    {
      if HeaderPresent(header) {
        var found := FindSessionByToken(sessions, BearerToken(header.value));
        if found.Some? {
          forall s | s in sessions {
            RemovedIsAt(sessions, found.value, s);
          }
          DeleteSessionAt(found.value);
        }
      }
      reply := Reply(200, Message(LogoutMessage));
    }

    /** The `authenticate` middleware. */
    method Authenticate(header: Option<string>, now: int) returns (out: AuthOutcome)
      requires Valid()
      modifies this
      ensures Valid()
      ensures users == old(users) && notes == old(notes) && nextId == old(nextId)
      ensures out.Next? <==> AuthenticatedUser(old(sessions), header, now).Some?
      ensures out.Next? ==>
        && out.userId == AuthenticatedUser(old(sessions), header, now).value
        && out.userId in UserIds(users)
        && sessions == old(sessions)
      ensures out.Respond? ==> out.reply.status == 401
      ensures !HeaderPresent(header) ==>
        out == Respond(Reply(401, Message(NoTokenMessage))) && sessions == old(sessions)
      ensures HeaderPresent(header) ==>
        match FindSessionByToken(old(sessions), BearerToken(header.value))
        case None =>
          out == Respond(Reply(401, Message(InvalidSessionMessage))) && sessions == old(sessions)
        case Some(i) =>
          if now > old(sessions)[i].expiresAt then
            out == Respond(Reply(401, Message(ExpiredMessage))) && sessions == RemoveAt(old(sessions), i)
          else
            out == Next(old(sessions)[i].userId) && sessions == old(sessions)
    {
      if !HeaderPresent(header) {
        return Respond(Reply(401, Message(NoTokenMessage)));
      }
      var token := BearerToken(header.value);
      var found := FindSessionByToken(sessions, token);
      if found.None? {
        return Respond(Reply(401, Message(InvalidSessionMessage)));
      }
      var session := sessions[found.value];
      if now > session.expiresAt {
        var byId := FindSessionById(sessions, session.id);
        // Session ids are unique, so the session deleted by id is the one just found.
        assert byId.value == found.value;
        DeleteSessionAt(byId.value);
        return Respond(Reply(401, Message(ExpiredMessage)));
      }
      out := Next(session.userId);
    }

    /** GET /api/notes, for the user `authenticate` attached. */
    function ListNotes(uid: Id, search: string, re: RegexEngine): (r: Reply)
      reads this
      ensures r.status == 200 && r.body.NoteList?
      ensures SortedByUpdatedDesc(r.body.notes)
      ensures forall n :: multiset(r.body.notes)[n] == if Listed(n, uid, search, re) then multiset(notes)[n] else 0
      ensures forall n :: n in r.body.notes ==> n in notes && n.userId == uid
      ensures ShowsOnlyOwnNotes(r, uid)
    {
      Reply(200, NoteList(ListedNotes(notes, uid, search, re)))
    }

    /** GET /api/notes/:id */
    function GetNote(uid: Id, id: IdParam): (r: Reply)
      reads this
      ensures id.Malformed? ==> r == Reply(500, Message(FetchNoteErrorMessage))
      ensures r.status == 200 <==>
        id.WellFormed? && exists i :: 0 <= i < |notes| && notes[i].id == id.id && notes[i].userId == uid
      ensures r.status == 200 ==>
        r.body.NoteBody? && r.body.note in notes && r.body.note.id == id.id && r.body.note.userId == uid
      ensures id.WellFormed? && r.status != 200 ==> r == Reply(404, Message(NotFoundMessage))
      ensures ShowsOnlyOwnNotes(r, uid)
    {
      if id.Malformed? then Reply(500, Message(FetchNoteErrorMessage))
      else match FindOwnedNote(notes, uid, id.id)
        case None => Reply(404, Message(NotFoundMessage))
        case Some(i) => Reply(200, NoteBody(notes[i]))
    }

    /** POST /api/notes */
    method CreateNote(uid: Id, title: Json, content: Json, now: int) returns (reply: Reply)
      requires Valid() && uid in UserIds(users)
      modifies this
      ensures Valid()
      ensures users == old(users) && sessions == old(sessions)
      ensures !Truthy(title) || !Truthy(content) ==>
        && reply == Reply(400, Message(FieldsRequiredMessage))
        && notes == old(notes) && nextId == old(nextId)
      ensures Truthy(title) && Truthy(content) ==>
        match NewNote(old(nextId), uid, title, content, now)
        case None =>
          && reply == Reply(500, Message(CreateErrorMessage))
          && notes == old(notes) && nextId == old(nextId)
        case Some(n) =>
          if NoteSchemaValid(n) then
            && reply == Reply(201, NoteBody(n))
            && notes == old(notes) + [n] && nextId == old(nextId) + 1
          else
            && reply == Reply(500, Message(CreateErrorMessage))
            && notes == old(notes) && nextId == old(nextId)
      ensures ChangesOnlyOwnNotes(old(notes), notes, uid) && ShowsOnlyOwnNotes(reply, uid)
      ensures reply.status == 201 ==>
        && reply.body.NoteBody? && reply.body.note.userId == uid
        && notes == old(notes) + [reply.body.note]
      ensures reply.status != 201 ==> notes == old(notes)
    {
      if !Truthy(title) || !Truthy(content) {
        return Reply(400, Message(FieldsRequiredMessage));
      }
      var note := NewNote(nextId, uid, title, content, now);
      if note.None? || !NoteSchemaValid(note.value) {
        return Reply(500, Message(CreateErrorMessage));
      }
      var n := note.value;
      AppendChangesOnlyOwnNotes(notes, n, uid);
      SaveNote(n);
      reply := Reply(201, NoteBody(n));
    }

    /** PUT /api/notes/:id */
    method UpdateNote(uid: Id, id: IdParam, title: Json, content: Json, now: int) returns (reply: Reply)
      requires Valid()
      modifies this
      ensures Valid()
      ensures users == old(users) && sessions == old(sessions) && nextId == old(nextId)
      ensures !Truthy(title) || !Truthy(content) ==>
        reply == Reply(400, Message(FieldsRequiredMessage)) && notes == old(notes)
      ensures (&& Truthy(title) && Truthy(content)
               && (id.Malformed? || CastToString(title).None? || CastToString(content).None?)) ==>
        reply == Reply(500, Message(UpdateErrorMessage)) && notes == old(notes)
      ensures (&& Truthy(title) && Truthy(content)
               && id.WellFormed? && CastToString(title).Some? && CastToString(content).Some?) ==>
        match FindOwnedNote(old(notes), uid, id.id)
        case None =>
          reply == Reply(404, Message(NotFoundMessage)) && notes == old(notes)
        case Some(i) =>
          var n := ApplyUpdate(old(notes)[i], CastToString(title).value, CastToString(content).value, now);
          reply == Reply(200, NoteBody(n)) && notes == old(notes)[i := n]
      ensures ChangesOnlyOwnNotes(old(notes), notes, uid) && ShowsOnlyOwnNotes(reply, uid)
    {
      if !Truthy(title) || !Truthy(content) {
        return Reply(400, Message(FieldsRequiredMessage));
      }
      var newTitle, newContent := CastToString(title), CastToString(content);
      if id.Malformed? || newTitle.None? || newContent.None? {
        return Reply(500, Message(UpdateErrorMessage));
      }
      var found := FindOwnedNote(notes, uid, id.id);
      if found.None? {
        return Reply(404, Message(NotFoundMessage));
      }
      var i := found.value;
      var updated := ApplyUpdate(notes[i], newTitle.value, newContent.value, now);
      forall n {
        ReplacedIsAt(notes, i, updated, n);
      }
      ReplaceNoteAt(i, updated);
      reply := Reply(200, NoteBody(updated));
    }

    /** DELETE /api/notes/:id */
    method DeleteNote(uid: Id, id: IdParam) returns (reply: Reply)
      requires Valid()
      modifies this
      ensures Valid()
      ensures users == old(users) && sessions == old(sessions) && nextId == old(nextId)
      ensures id.Malformed? ==> reply == Reply(500, Message(DeleteErrorMessage)) && notes == old(notes)
      ensures id.WellFormed? ==>
        match FindOwnedNote(old(notes), uid, id.id)
        case None => reply == Reply(404, Message(NotFoundMessage)) && notes == old(notes)
        case Some(i) => reply == Reply(200, Message(DeletedMessage)) && notes == RemoveAt(old(notes), i)
      ensures forall n :: n in old(notes) && n !in notes ==> n.userId == uid && id.WellFormed? && n.id == id.id
      ensures ChangesOnlyOwnNotes(old(notes), notes, uid) && ShowsOnlyOwnNotes(reply, uid)
    {
      if id.Malformed? {
        return Reply(500, Message(DeleteErrorMessage));
      }
      var found := FindOwnedNote(notes, uid, id.id);
      if found.None? {
        return Reply(404, Message(NotFoundMessage));
      }
      forall n | n in notes {
        RemovedIsAt(notes, found.value, n);
      }
      DeleteNoteAt(found.value);
      reply := Reply(200, Message(DeletedMessage));
    }

    /** A request to one of the note routes: `authenticate` first, then the route, with the user it
        attached. Only that user's notes are ever read, added, changed or removed. */
    method HandleNotes(header: Option<string>, now: int, request: NoteRequest, re: RegexEngine) returns (reply: Reply)
      requires Valid()
      modifies this
      ensures Valid()
      ensures users == old(users)
      ensures AuthenticatedUser(old(sessions), header, now).None? ==> reply.status == 401 && notes == old(notes)
      ensures AuthenticatedUser(old(sessions), header, now).Some? ==>
        var uid := AuthenticatedUser(old(sessions), header, now).value;
        && sessions == old(sessions)
        && ChangesOnlyOwnNotes(old(notes), notes, uid)
        && ShowsOnlyOwnNotes(reply, uid)
    {
      var auth := Authenticate(header, now);
      if auth.Respond? {
        return auth.reply;
      }
      var uid := auth.userId;
      match request
      case ListRequest(search) =>
        reply := ListNotes(uid, search, re);
      case GetRequest(id) =>
        reply := GetNote(uid, id);
      case CreateRequest(title, content) =>
        reply := CreateNote(uid, title, content, now);
      case UpdateRequest(id, title, content) =>
        reply := UpdateNote(uid, id, title, content, now);
      case DeleteRequest(id) =>
        reply := DeleteNote(uid, id);
    }
  }
}

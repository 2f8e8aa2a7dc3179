# NoSQL injection study: request handlers as a verified model

The system is a small notes application written to study NoSQL injection against MongoDB. An Express
back end stores users, sessions and notes through Mongoose. It offers:

- signup, login and logout;
- a bearer-token middleware, `authenticate`;
- per-user note routes: list, get, create, update and delete.

Both the login query and the token lookup take request values as they arrive. So a JSON body such as
`{"username": {"$gt": ""}, "password": {"$gt": ""}}` logs in as the first user.

This Dafny project models that request-handling core:

- `Server.Store` is a class holding the three collections as sequences in natural (insertion) order,
  plus the next id to hand out. It has one method per handler, and each method states its reply and
  its effect on every collection.
- The user and note schemas are validity predicates (`UserSchemaValid`, `NoteStored`,
  `NoteSchemaValid`). They form the table invariant `Store.Valid`, together with:
  - unique ids;
  - unique usernames;
  - sessions and notes owned by existing users.

  Every handler preserves that invariant.
- Request bodies are JSON values (`JsValue.Json`), and the `!x` checks use JavaScript truthiness.
  An object with one query operator (`$gt`, `$ne`, `$regex`) is a distinct kind of value, and so is an
  object with a string `_id`, which Mongoose's String cast turns into that `_id`.
- In a query, a value becomes a `DocumentStore.Filter`:
  - a scalar becomes an equality on its String cast;
  - an operator stays an operator;
  - `$regex` goes to a regular-expression engine passed in as a parameter.
- `findOne` is the first match in natural order.
- Mongoose's behaviour on save and on update is modelled as follows:
  - the String cast and the `trim` setter run on both;
  - `timestamps` sets the dates;
  - validators run on save only;
  - setters do not run on query filters, which compare the value as sent. No single Mongoose version
    behaves exactly like this; "## Left out" says what differs.
- The token is the lower-case hexadecimal form of 32 random bytes (section 8 of RFC 4648). The
  random bytes and the current time are parameters of the handlers.
- Token extraction is JavaScript's `replace('Bearer ', '')`: it removes the first occurrence,
  wherever it stands. That is a loose reading of the bearer scheme of section 2.1 of RFC 6750.

`Scenarios` holds properties of request sequences:

- signing up twice;
- deleting a note twice;
- creating a note and then fetching it;
- logging in and then using the token;
- logging out and then using the same header;
- a session that has expired.

The `Session` schema file is not part of this model. Its fields (`userId`, `token`, `expiresAt`,
`_id`) are taken from how the login route and the middleware use them.

## Model

| member | source | states |
|---|---|---|
| JsValue.Truthy | backend/routes/auth.js:21 | what `!x` tests: undefined, null, false, 0 and "" are falsy; every other value, every object included, is truthy |
| JsValue.NatToDecimal | backend/models/Note.js:10 | the numeral a non-negative integer casts to: digits only, no leading zero, and it denotes the number (its `DecimalValue` is the input) |
| JsValue.IntToString | backend/routes/auth.js:87-90 | the string an integer casts to: a minus sign exactly for negative numbers, followed by the digits of the magnitude with no leading zero (only 0 itself is "0") |
| JsString.IsWhiteSpace | backend/models/User.js:8 | the code points `trim` removes: the ECMAScript WhiteSpace and LineTerminator characters |
| JsString.Utf16Length | backend/routes/auth.js:25 | `.length`: at least the number of characters and at most twice it |
| JsString.Utf16LengthOfChar | backend/routes/auth.js:25 | one character counts one UTF-16 unit, or two when it lies outside the Basic Multilingual Plane |
| JsString.Utf16LengthAppend | backend/routes/auth.js:25 | the length of a concatenation is the sum of the lengths; with the one-character rule this fixes `.length` of every string |
| JsString.Utf16LengthOfBmp | backend/models/User.js:9-10 | for characters of the Basic Multilingual Plane, the length the schema and the routes measure (UTF-16 units) is the number of characters |
| JsString.Trim | backend/models/User.js:8 | the result starts and ends with no white space; a string that already has none is unchanged; it is never longer |
| JsString.TrimRemovesOnlyEnds | backend/models/Note.js:12 | trimming keeps a contiguous middle part; everything removed before and after it is white space |
| JsString.TrimIdempotent | backend/models/Note.js:12 | trimming twice equals trimming once |
| JsString.TrimEmptyIffWhiteSpace | backend/models/Note.js:11-12 | a string trims to empty exactly when it is white space only |
| JsString.IndexOfFrom | backend/middleware/auth.js:20 | the result is the first position at or after the start where the pattern occurs; None when it occurs nowhere |
| JsString.RemoveFirst | backend/middleware/auth.js:20 | a string without the pattern is unchanged; otherwise exactly the first occurrence is cut out |
| JsString.RemoveFirstOfPrefixed | backend/routes/auth.js:125 | removing a pattern from a string that starts with it leaves the rest |
| Hex.HexEncode | backend/routes/auth.js:97 | the encoding has two characters per byte, all lower-case hexadecimal digits |
| Hex.DecodeEncode | backend/routes/auth.js:97 | decoding the encoding gives back the bytes |
| Hex.EncodeDecode | backend/routes/auth.js:97 | a string that decodes re-encodes to itself: every decodable string is the encoding of some bytes |
| DocumentStore.StrLessIrreflexive | backend/routes/auth.js:66-67 | the string order used by `$gt` is irreflexive |
| DocumentStore.StrLessTransitive | backend/routes/auth.js:66-67 | the string order used by `$gt` is transitive |
| DocumentStore.StrLessTotal | backend/routes/auth.js:66-67 | any two strings are equal or ordered one way |
| DocumentStore.StrLess | backend/routes/auth.js:66-67 | the store's string order: character by character by code point, a proper prefix before any longer string |
| DocumentStore.Matches | backend/routes/auth.js:66-73 | a stored string satisfies an equality when it is that string, `$gt` when it is above the bound in binary order, `$ne` when it differs, and `$regex` when the engine matches it case-sensitively |
| DocumentStore.GtMatchesExactlyAbove | backend/routes/auth.js:66-67 | `{$gt: x}` matches exactly the strings that are neither `x` nor below it |
| DocumentStore.GtMatchesUpward | backend/routes/auth.js:66-67 | whatever lies above a string `{$gt: x}` matches is matched too |
| DocumentStore.EmptyBoundMatchesNonEmpty | backend/routes/auth.js:66-70 | `{$gt: ""}` and `{$ne: ""}` each match a stored string exactly when it is non-empty |
| DocumentStore.CastToString | backend/routes/notes.js:84-88 | strings pass unchanged; the cast succeeds exactly for booleans, numbers, strings and objects with a non-empty string `_id`; a truthy value that casts gives a non-empty string |
| DocumentStore.CastScalarForms | backend/models/Note.js:10 | a number casts to its numeral, `true` and `false` to "true" and "false", and an object with a non-empty string `_id` to that `_id` |
| DocumentStore.CastFilter | backend/routes/auth.js:87-90 | the request value reaches the filter unchanged: a string becomes an equality on itself, a number or boolean an equality on its String cast, an object with a non-empty string `_id` an equality on that `_id`, and `{$gt: s}`, `{$ne: s}` and `{$regex: s}` the same operator with the same operand; any other object is a cast error. Null and undefined never reach the cast, because the `!x` checks reject them first; the model maps them to a cast error |
| DocumentStore.FirstIndex | backend/routes/auth.js:87 | the result is a match, no earlier document matches, and None means no document matches |
| DocumentStore.RemoveAt | backend/routes/auth.js:126 | one element fewer; the elements before the position stay and the ones after shift down by one; the multiset loses exactly that element |
| UserModel.UserSchemaValid | backend/models/User.js:3-22 | a stored user has a trimmed username of 3 to 20 UTF-16 units, a password of at least 6, and equal creation and update dates |
| UserModel.UsersValid | backend/models/User.js:3-22 | every user satisfies the schema and has an id below the next one; ids are unique and so are usernames (the unique index) |
| UserModel.UsernameTaken | backend/routes/auth.js:35-39 | the duplicate check: some stored user has exactly this username |
| UserModel.CanInsertUser | backend/routes/auth.js:47 | `user.save()` succeeds: the user satisfies the schema and no stored user has its username (the unique index) |
| UserModel.NewUser | backend/routes/auth.js:42-45 | the new user has the given id, the trimmed username, the password verbatim, and both dates set to now |
| UserModel.InsertUserKeepsValid | backend/models/User.js:3-22 | saving a user that passes the schema and holds no username already in the table keeps every stored user valid, with unique ids and usernames; exactly its id joins the user ids |
| SessionModel.SessionsValid | backend/routes/auth.js:98-104 | every session has an id below the next one and belongs to an existing user; ids are unique |
| SessionModel.InsertSessionKeepsValid | backend/routes/auth.js:98-104 | a session saved with a fresh id for an existing user keeps the sessions table valid |
| SessionModel.RemoveSessionKeepsValid | backend/middleware/auth.js:32 | deleting a session keeps the sessions table valid |
| NoteModel.NoteStored | backend/models/Note.js:9-18 | what every stored note satisfies, updated ones included: a trimmed title and a non-empty content |
| NoteModel.NoteSchemaValid | backend/models/Note.js:3-21 | what a save accepts: a stored note whose title is non-empty and at most 100 UTF-16 units |
| NoteModel.NotesValid | backend/models/Note.js:3-21 | every note is stored well, has an id below the next one and belongs to an existing user; ids are unique |
| NoteModel.NewNote | backend/routes/notes.js:84-88 | the note exists exactly when title and content cast to strings; it then has the given id and owner, the trimmed title, the content verbatim, and both dates set to now |
| NoteModel.BlankTitleFailsOnCreate | backend/models/Note.js:9-14 | a white-space-only title is truthy, builds a note, and fails the schema (the `required` check after trimming) |
| NoteModel.InsertNoteKeepsValid | backend/models/Note.js:3-21 | saving a note that is stored well, with a fresh id and an existing owner, keeps the notes table valid |
| NoteModel.ReplaceNoteKeepsValid | backend/routes/notes.js:114-118 | replacing a note with one of the same id and owner that is still stored well keeps the table valid |
| NoteModel.RemoveNoteKeepsValid | backend/routes/notes.js:137-140 | deleting a note keeps the notes table valid |
| AuthRoutes.UsernameLengthOk | backend/routes/auth.js:25 | the route's username check: a string of 3 to 20 UTF-16 units, measured before trimming |
| AuthRoutes.PasswordLengthOk | backend/routes/auth.js:29 | the route's password check: a string of at least 6 UTF-16 units |
| AuthRoutes.SignupInputError | backend/routes/auth.js:21-31 | the first failing check decides the message: "required" exactly when a field is falsy; the username message exactly when both are truthy and the username is not a string of 3-20 units; the password message exactly when those pass and the password is not a string of at least 6; no error exactly when all pass |
| AuthRoutes.PaddedUsernameFailsOnSave | backend/routes/auth.js:25-52 | " ab" passes every route check, yet the schema rejects the saved user (its trimmed length is 2), so signup reaches the 500 path |
| AuthRoutes.FindLoginUser | backend/routes/auth.js:87-94 | the result satisfies both filters, no earlier user does, and None means no user does |
| AuthRoutes.LoginWithoutPassword | backend/routes/auth.js:69-70 | the username as a string and `{$gt: ""}` or `{$ne: ""}` as the password find exactly that user |
| AuthRoutes.LoginAsFirstUser | backend/routes/auth.js:66-67 | `{$gt: ""}` in both fields finds the first user of a non-empty valid table |
| AuthRoutes.LoginToken | backend/routes/auth.js:97 | the token is 64 lower-case hexadecimal characters that decode back to the 32 random bytes |
| AuthMiddleware.HeaderPresent | backend/middleware/auth.js:16 | a header is present when it was sent and is not empty (an empty header is falsy) |
| AuthMiddleware.BearerToken | backend/middleware/auth.js:20 | the token is never longer than the header; a header without "Bearer " is the token itself |
| AuthMiddleware.BearerTokenOfBearerHeader | backend/middleware/auth.js:20 | "Bearer " followed by a token gives exactly that token |
| AuthMiddleware.BearerTokenAnywhere | backend/middleware/auth.js:20 | the removal is not anchored: for any `x` holding no "Bearer ", the header `x` + "Bearer " + `t` gives `x` + `t` |
| AuthMiddleware.FindSessionByToken | backend/middleware/auth.js:24 | the first session whose token equals the string; None when no session has it |
| AuthMiddleware.FindSessionById | backend/middleware/auth.js:32 | a session with the id; None when none has it |
| AuthMiddleware.AuthenticatedUser | backend/middleware/auth.js:12-38 | a user is attached only when a header is present and some unexpired session holds the extracted token and belongs to that user |
| AuthMiddleware.OwnTokenAuthenticates | backend/middleware/auth.js:24-38 | a request that sends an unexpired session's own token as a bearer token authenticates as that session's user, when no earlier session shares the token |
| AuthMiddleware.RemovedTokenNotFound | backend/routes/auth.js:124-126 | once the session holding a token is deleted, the token is unknown, when no other session shared it |
| AuthMiddleware.NewSessionAuthenticates | backend/routes/auth.js:97-104 | a session appended with a token no other session holds authenticates its user until it expires |
| NotesRoutes.SearchHit | backend/routes/notes.js:28-31 | a note is a search hit when the pattern matches its title or its content, ignoring case |
| NotesRoutes.Listed | backend/routes/notes.js:21-31 | a note is listed when it belongs to the user and, for a non-empty search, is a search hit |
| NotesRoutes.SelectNotes | backend/routes/notes.js:21-34 | each note occurs in the result as often as in the table if it belongs to the user and, for a non-empty search, its title or content matches case-insensitively; otherwise it does not occur |
| NotesRoutes.InsertByUpdated | backend/routes/notes.js:34 | inserting into a list sorted by `updatedAt`, newest first, keeps it sorted and adds exactly that note |
| NotesRoutes.SortByUpdatedDesc | backend/routes/notes.js:34 | the result is sorted by `updatedAt`, newest first, and is a permutation of the input |
| NotesRoutes.ListedNotes | backend/routes/notes.js:21-34 | the list is sorted newest update first, holds each listed note as often as the table does and nothing else, and shows only the user's own notes |
| NotesRoutes.FindOwnedNote | backend/routes/notes.js:52-55 | a found note has both the id and the owner; None exactly when no note has both |
| NotesRoutes.FindOwnedNoteById | backend/routes/notes.js:52-59 | in a valid table, a note's id finds that note for its owner and nothing for any other user |
| NotesRoutes.ApplyUpdate | backend/routes/notes.js:114-118 | id, owner and creation date are kept; the title is trimmed; the content is replaced; `updatedAt` becomes now; a non-empty content keeps the note stored well |
| NotesRoutes.UpdateSkipsTitleValidation | backend/routes/notes.js:114-118 | an update to a white-space-only title is stored (as an empty title) although the schema, which create enforces, rejects it |
| NotesRoutes.RemovedNoteNotFound | backend/routes/notes.js:137-144 | once a note is deleted from a valid table, its id is found for no user |
| Server.Store.Valid | backend/models/Note.js:4-7 | the table invariant: users, sessions and notes each satisfy their table predicate, and every session and note belongs to an existing user |
| Server.Store.SaveUser | backend/routes/auth.js:47 | a user that passes the schema and the unique index is appended with the next id; the invariant holds and the other collections are unchanged |
| Server.Store.SaveSession | backend/routes/auth.js:104 | a session for an existing user is appended with the next id; the invariant holds and the other collections are unchanged |
| Server.Store.SaveNote | backend/routes/notes.js:90 | a note that is stored well, for an existing user, is appended with the next id; the invariant holds and the other collections are unchanged |
| Server.Store.ReplaceNoteAt | backend/routes/notes.js:114-118 | one note is replaced in place; the invariant holds and nothing else changes |
| Server.Store.DeleteSessionAt | backend/middleware/auth.js:32 | exactly one session is removed; the invariant holds and nothing else changes |
| Server.Store.DeleteNoteAt | backend/routes/notes.js:137-140 | exactly one note is removed; the invariant holds and nothing else changes |
| Server.Store.Signup | backend/routes/auth.js:16-54 | 400 with the first failing check's message; 409 when a user has the username exactly as sent; otherwise 201 with one user appended (trimmed username, verbatim password) when the schema and the unique index accept it, and 500 when not; sessions and notes never change; the invariant holds |
| Server.Store.Login | backend/routes/auth.js:75-115 | 400 on a falsy field and 500 on a cast error, both with no session added; 401 with no session added when no user matches both filters; otherwise exactly one session is appended for the first matching user, holding the new token and expiring 24 hours from now; the reply carries that token and the user's stored username |
| Server.Store.Logout | backend/routes/auth.js:121-133 | always 200; with no header nothing changes; otherwise at most the first session holding the extracted token is deleted, and every deleted session held that token |
| Server.Store.Authenticate | backend/middleware/auth.js:12-43 | exactly one outcome: the request continues with a user exactly when `AuthenticatedUser` gives one, and the store is then unchanged; otherwise a 401 with "No authorization token provided" (no header), "Invalid or expired session" (unknown token) or "Session expired" (only that session deleted) |
| Server.Store.ListNotes | backend/routes/notes.js:17-40 | 200 with the user's notes that match the search, each as often as stored, sorted by `updatedAt` newest first; no other user's note appears |
| Server.Store.GetNote | backend/routes/notes.js:49-66 | 200 exactly when a note has both the id and the owner, and the reply is such a note; 404 otherwise; 500 for an id that does not cast |
| Server.Store.CreateNote | backend/routes/notes.js:75-96 | 400 on a falsy field; 500 when a field does not cast or the schema rejects the note; otherwise 201 with one note appended for the user (trimmed title, verbatim content); no other change |
| Server.Store.UpdateNote | backend/routes/notes.js:105-129 | 400 on a falsy field; 500 for an id or a field that does not cast; 404 when no note has both the id and the owner; otherwise only that note changes, to the trimmed title and the new content with `updatedAt` set to now, with no validation, and it is returned |
| Server.Store.DeleteNote | backend/routes/notes.js:135-151 | 500 for an id that does not cast; 404 when no note has both the id and the owner; otherwise 200 and exactly that note is removed |
| Server.Store.HandleNotes | backend/routes/notes.js:7-8 | a note route runs only after `authenticate`: with no authenticated user it answers 401 and no note changes; otherwise the sessions are unchanged, and every note added, removed or shown belongs to the authenticated user |
| Scenarios.SignupTwice | backend/routes/auth.js:33-52 | the same signup sent twice never adds a second user; after a first success the second gets 409 if the username had nothing to trim, and 500 if it had (the duplicate check uses the name as sent, the unique index the trimmed one) |
| Scenarios.DeleteTwice | backend/routes/notes.js:135-146 | deleting the same note twice gives 200 and then 404; a failed first delete is repeated exactly |
| Scenarios.StoredNoteFetchedByOwnerOnly | backend/routes/notes.js:52-59 | a stored note is returned by id to its owner, and every other user gets 404 |
| Scenarios.CreateThenGet | backend/routes/notes.js:75-91 | a note just created is returned unchanged to its owner and is 404 for any other user |
| Scenarios.LoginThenAuthenticate | backend/routes/auth.js:97-110 | after a successful login, "Bearer " plus the returned token authenticates as the user whose username the reply carries, until expiry (given the token is new) |
| Scenarios.LoginWithoutPasswordRequest | backend/routes/auth.js:69-70 | a login with an existing username and `{$gt: ""}` or `{$ne: ""}` as the password answers 200 with that username and appends one session for that user |
| Scenarios.LoginAsFirstUserRequest | backend/routes/auth.js:66-67 | a login with `{$gt: ""}` in both fields on a non-empty store answers 200 with the first user's name and appends one session for that user |
| Scenarios.LogoutEndsSession | backend/routes/auth.js:121-128 | after logout, the same header is refused with 401, when no two sessions share a token |
| Scenarios.ExpiredStaysGone | backend/middleware/auth.js:31-34 | once a session was found expired and deleted, the same header is an unknown session, whatever the time, when no two sessions share a token |

## Left out

- Express wiring (`backend/server.js`), the database connection and its retries (`backend/config/db.js`) and the seeding script (`backend/seed.js`): plumbing and I/O with no decision logic.
- The clock and `crypto.randomBytes`: both are parameters of the handlers. Only the format of the token is constrained, not its randomness.
- Store exceptions that are neither cast errors nor validation failures (a lost connection, a failed write): the catch-all 500 paths they lead to are not modelled. The cast and validation failures that end in 500 are modelled.
- The middleware's 500 reply ("Internal server error") can only come from such a store exception, so it is not modelled.
- The list route's 500 reply ("Error fetching notes") needs a regular expression the store rejects; the regex engine is uninterpreted, so it is not modelled.
- Regular-expression matching: `$regex` and the note search go to an uninterpreted engine passed as a parameter.
- JSON arrays, floating-point numbers and objects holding several operators are not represented. `Json` covers:
  - scalars, with integer numbers;
  - objects holding one of `$gt`, `$ne` or `$regex` with a string operand;
  - objects with a string `_id` and no operator key, which Mongoose's String cast turns into that `_id`;
  - `Object`, which stands only for the remaining objects with no query-operator key.
- DocumentStore.CastFilter: of the objects without an operator key, only the string-`_id` case is distinguished; every other such object is a cast error in the model.
- Other query operators are not represented: `$exists`, `$in`, `$nin`, `$gte`, `$lt`, `$lte`, `$eq` and the like. Mongoose would pass them to the query as it does `$gt`, but the model has no value for them. Operands that are not strings (`{"$gt": 5}`) are not represented either.
- JsValue.NatToDecimal: integers from 10^21 on, which JavaScript writes in exponent form ("1e+21"), are written in plain decimal; numbers beyond 2^53, which JavaScript cannot hold exactly, are not distinguished.
- A search parameter that is not a string (a repeated `search=` arrives as an array, and an extended query parser can also produce an object): the list route's search is modelled as a string only.
- ObjectId structure: ids are natural numbers handed out from a counter. A route id either casts to an id or is a cast error (500).
- Setters and Mongoose versions: the model is a hybrid that no single Mongoose version matches exactly. Schema setters (`trim`) do not apply to query filters: the signup duplicate check and the login query compare the value as sent. They do apply on save and to the update of `findOneAndUpdate`. The Mongoose version is not recorded in the repository. Mongoose 5 and later also trim query values. Under that behaviour, a padded username that duplicates an existing one gets 409, not 500, in `Server.Store.Signup` and `Scenarios.SignupTwice`. Mongoose 4 by default applies setters to neither queries nor updates.
- NotesRoutes.ApplyUpdate: trims the updated title; under Mongoose 4 defaults the title would be stored as sent, untrimmed.
- NoteModel.NoteStored: requires a trimmed title of every stored note, updated ones included; under Mongoose 4 defaults an updated title could keep its white space.
- Server.Store.UpdateNote: stores the trimmed title, so an update to " " stores "" (`NotesRoutes.UpdateSkipsTitleValidation`); under Mongoose 4 defaults it would store " ".
- AuthRoutes.FindLoginUser: `findOne` may return any match; the model fixes the first match in natural order.
- Server.Store.ListNotes: the store leaves the order of notes with equal `updatedAt` open; the model's contract states only the sort key and the multiset, and its sort keeps one particular order.
- Scenarios.LoginThenAuthenticate: assumes the new token differs from every stored one. A collision of 256 random bits is not modelled.
- Scenarios.LogoutEndsSession: assumes tokens are distinct across sessions.
- Scenarios.ExpiredStaysGone: assumes tokens are distinct across sessions.
- Logging, JSON encoding of replies, and the interleaving of concurrent requests: each handler runs as one atomic step.
- The `Session` schema file is not part of this model; its fields are inferred from their use.

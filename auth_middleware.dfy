/**
 * The pure parts of the `authenticate` middleware (and of logout, which
 * extracts the token the same way): header presence, token extraction and
 * session lookup.
 */
module AuthMiddleware {
  import opened Wrappers
  import opened JsString
  import opened DocumentStore
  import opened SessionModel

  const NoTokenMessage := "No authorization token provided"
  const InvalidSessionMessage := "Invalid or expired session"
  const ExpiredMessage := "Session expired"
  const BearerPrefix := "Bearer "

  /** `if (authHeader)`: a missing header and an empty one are both falsy. */
  predicate HeaderPresent(header: Option<string>) {
    header.Some? && header.value != ""
  }

  /** `authHeader.replace('Bearer ', '')`: the first occurrence of "Bearer " is removed, wherever it
      stands; nothing else about the header is checked. */
  function BearerToken(header: string): (token: string)
    ensures |token| <= |header|
    ensures (forall j :: 0 <= j <= |header| ==> !OccursAt(header, BearerPrefix, j)) ==> token == header
  {
    RemoveFirst(header, BearerPrefix)
  }

  /** The token a client sends as "Bearer <token>" is exactly what is looked up. */
  lemma BearerTokenOfBearerHeader(token: string)
    ensures BearerToken(BearerPrefix + token) == token
  {
    RemoveFirstOfPrefixed(BearerPrefix, token);
  }

  /** The removal is not anchored at the start: whatever precedes the first "Bearer " stays, and
      only the prefix itself is cut. No occurrence can straddle `x` and the prefix, because "B"
      appears in "Bearer " only at its start. */
  lemma BearerTokenAnywhere(x: string, t: string)
    requires forall j :: 0 <= j <= |x| ==> !OccursAt(x, BearerPrefix, j)
    ensures BearerToken(x + BearerPrefix + t) == x + t
  {
    var h := x + BearerPrefix + t;
    var n := |BearerPrefix|;
    assert h[|x|..|x| + n] == BearerPrefix;
    assert OccursAt(h, BearerPrefix, |x|);
    forall j: nat | j < |x|
      ensures !OccursAt(h, BearerPrefix, j)
    {
      if j + n <= |x| {
        assert !OccursAt(x, BearerPrefix, j);
        assert h[j..j + n] == x[j..j + n];
      } else if j + n <= |h| {
        var m := |x| - j;
        assert 1 <= m < n;
        assert h[j..j + n][m] == 'B';
        assert BearerPrefix[m] != 'B';
        assert h[j..j + n] != BearerPrefix;
      }
    }
    assert h[..|x|] + h[|x| + n..] == x + t;
  }

  /** `Session.findOne({token})`: the first session, in natural order, whose token equals the string. */
  function FindSessionByToken(sessions: seq<Session>, token: string): (r: Option<nat>)
    ensures r.Some? ==> r.value < |sessions| && sessions[r.value].token == token
    ensures r.Some? ==> forall j :: 0 <= j < r.value ==> sessions[j].token != token
    ensures r.None? <==> forall j :: 0 <= j < |sessions| ==> sessions[j].token != token
  {
    FirstIndex(sessions, (s: Session) => s.token == token)
  }

  /** `Session.deleteOne({_id})`: the first session with that id. */
  function FindSessionById(sessions: seq<Session>, id: Id): (r: Option<nat>)
    ensures r.Some? ==> r.value < |sessions| && sessions[r.value].id == id
    ensures r.None? <==> forall j :: 0 <= j < |sessions| ==> sessions[j].id != id
  {
    FirstIndex(sessions, (s: Session) => s.id == id)
  }

  /** The user `authenticate` attaches to the request at time `now`, or None when it answers 401. */
  function AuthenticatedUser(sessions: seq<Session>, header: Option<string>, now: int): (r: Option<Id>)
    ensures r.Some? ==> HeaderPresent(header)
    ensures r.Some? ==> exists i ::
      && 0 <= i < |sessions| && sessions[i].token == BearerToken(header.value)
      && now <= sessions[i].expiresAt && sessions[i].userId == r.value
  {
    if !HeaderPresent(header) then None
    else match FindSessionByToken(sessions, BearerToken(header.value))
      case None => None
      case Some(i) => if now > sessions[i].expiresAt then None else Some(sessions[i].userId)
  }

  /** A request bearing a live session's own token authenticates as that session's user, provided no
      earlier session shares the token. */
  lemma {:induction false} OwnTokenAuthenticates(sessions: seq<Session>, i: nat, now: int)
    requires i < |sessions| && now <= sessions[i].expiresAt
    requires forall j :: 0 <= j < i ==> sessions[j].token != sessions[i].token
    ensures AuthenticatedUser(sessions, Some(BearerPrefix + sessions[i].token), now) == Some(sessions[i].userId)
  {
    BearerTokenOfBearerHeader(sessions[i].token);
    var found := FindSessionByToken(sessions, sessions[i].token);
    assert found.Some?;
    assert !(found.value < i || i < found.value);
  }

  /** Once the session holding a token is deleted, and no other session shared it, the token is
      unknown. */
  lemma RemovedTokenNotFound(sessions: seq<Session>, k: nat)
    requires k < |sessions| && TokensDistinct(sessions)
    ensures FindSessionByToken(RemoveAt(sessions, k), sessions[k].token).None?
  {
    var after := RemoveAt(sessions, k);
    forall j | 0 <= j < |after| ensures after[j].token != sessions[k].token {
      if j < k {
        assert after[j] == sessions[j];
      } else {
        assert after[j] == sessions[j + 1];
      }
    }
  }

  /** A session appended with a token no other session holds authenticates its user until it
      expires. */
  lemma NewSessionAuthenticates(sessions: seq<Session>, s: Session, now: int)
    requires forall j :: 0 <= j < |sessions| ==> sessions[j].token != s.token
    requires now <= s.expiresAt
    ensures AuthenticatedUser(sessions + [s], Some(BearerPrefix + s.token), now) == Some(s.userId)
  {
    var all := sessions + [s];
    assert all[|sessions|] == s;
    assert forall j :: 0 <= j < |sessions| ==> all[j] == sessions[j];
    OwnTokenAuthenticates(all, |sessions|, now);
  }
}

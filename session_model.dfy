/** Sessions, as the login handler creates them and the authenticator reads them. */
module SessionModel {
  import opened DocumentStore

  datatype Session = Session(id: Id, userId: Id, token: string, expiresAt: int)

  /** A session lives 24 hours, in milliseconds. */
  const SessionTtlMs := 24 * 60 * 60 * 1000

  /** The sessions table: ids below `bound` and unique, every session owned by a known user. */
  predicate SessionsValid(sessions: seq<Session>, bound: Id, owners: set<Id>) {
    && (forall i :: 0 <= i < |sessions| ==> sessions[i].id < bound && sessions[i].userId in owners)
    && (forall i, j :: 0 <= i < j < |sessions| ==> sessions[i].id != sessions[j].id)
  }

  /** A larger id bound and more known users keep the table valid (signup and new ids elsewhere). */
  lemma SessionsValidWeaken(sessions: seq<Session>, bound: Id, owners: set<Id>, bound': Id, owners': set<Id>)
    requires SessionsValid(sessions, bound, owners) && bound <= bound' && owners <= owners'
    ensures SessionsValid(sessions, bound', owners')
  {
  }

  /** Login appends a session with a fresh id for a known user. */
  lemma InsertSessionKeepsValid(sessions: seq<Session>, bound: Id, owners: set<Id>, s: Session)
    requires SessionsValid(sessions, bound, owners) && s.id == bound && s.userId in owners
    ensures SessionsValid(sessions + [s], bound + 1, owners)
  {
    var t := sessions + [s];
    assert forall i :: 0 <= i < |sessions| ==> t[i] == sessions[i];
  }

  /** Logout and the expiry check delete one session. */
  lemma RemoveSessionKeepsValid(sessions: seq<Session>, bound: Id, owners: set<Id>, k: nat)
    requires SessionsValid(sessions, bound, owners) && k < |sessions|
    ensures SessionsValid(RemoveAt(sessions, k), bound, owners)
  {
    var t := RemoveAt(sessions, k);
    forall i, j | 0 <= i < j < |t| ensures t[i].id != t[j].id {
      var i', j' := if i < k then i else i + 1, if j < k then j else j + 1;
      assert t[i] == sessions[i'] && t[j] == sessions[j'];
    }
  }

  /** No two sessions share a token. Tokens are 256 random bits; a collision is not modelled, and
      the properties that need this say so in their preconditions. */
  predicate TokensDistinct(sessions: seq<Session>) {
    forall i, j :: 0 <= i < j < |sessions| ==> sessions[i].token != sessions[j].token
  }
}

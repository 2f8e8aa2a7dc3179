/**
 * The pure parts of the note handlers: the list query (owner filter, optional
 * case-insensitive search, sort by `updatedAt` descending), the owner-scoped
 * lookup by id and the document an update produces.
 */
module NotesRoutes {
  import opened Wrappers
  import opened JsString
  import opened DocumentStore
  import opened NoteModel

  const NotFoundMessage := "Note not found"
  const FetchNoteErrorMessage := "Error fetching note"
  const FieldsRequiredMessage := "Title and content are required"
  const CreateErrorMessage := "Error creating note"
  const UpdateErrorMessage := "Error updating note"
  const DeletedMessage := "Note deleted successfully"
  const DeleteErrorMessage := "Error deleting note"

  /** `req.params.id`: a string the store casts to an ObjectId, or fails to. */
  datatype IdParam = WellFormed(id: Id) | Malformed(raw: string)

  /** `{ $or: [{title: {$regex, $options: 'i'}}, {content: {$regex, $options: 'i'}}] }` */
  predicate SearchHit(n: Note, search: string, re: RegexEngine) {
    re(search, true, n.title) || re(search, true, n.content)
  }

  /** The list query: owned by `uid` and, when `search` is truthy, a search hit. */
  predicate Listed(n: Note, uid: Id, search: string, re: RegexEngine) {
    n.userId == uid && (search == "" || SearchHit(n, search, re))
  }

  /** `Note.find(query)` in natural order: each note as often as the table holds it if it satisfies
      the query, and otherwise not at all. */
  function SelectNotes(notes: seq<Note>, uid: Id, search: string, re: RegexEngine): (r: seq<Note>)
    ensures forall n :: multiset(r)[n] == if Listed(n, uid, search, re) then multiset(notes)[n] else 0
  {
    if notes == [] then []
    else
      assert notes == [notes[0]] + notes[1..];
      (if Listed(notes[0], uid, search, re) then [notes[0]] else []) + SelectNotes(notes[1..], uid, search, re)
  }

  predicate SortedByUpdatedDesc(s: seq<Note>) {
    forall i, j :: 0 <= i < j < |s| ==> s[i].updatedAt >= s[j].updatedAt
  }

  /** A note no older than the head of a sorted list can go in front of it. */
  lemma SortedCons(x: Note, s: seq<Note>)
    requires SortedByUpdatedDesc(s) && (s != [] ==> x.updatedAt >= s[0].updatedAt)
    ensures SortedByUpdatedDesc([x] + s)
  {
    var r := [x] + s;
    forall i, j | 0 <= i < j < |r|
      ensures r[i].updatedAt >= r[j].updatedAt
    {
      assert r[j] == s[j - 1];
      if i > 0 {
        assert r[i] == s[i - 1];
      }
    }
  }

  /** Inserts `n` into a list sorted newest first, before the first note that is not newer. */
  function InsertByUpdated(n: Note, s: seq<Note>): (r: seq<Note>)
    requires SortedByUpdatedDesc(s)
    ensures SortedByUpdatedDesc(r)
    ensures |r| == |s| + 1 && (r[0] == n || (s != [] && r[0] == s[0]))
    ensures multiset(r) == multiset(s) + multiset{n}
  {
    if s == [] || n.updatedAt >= s[0].updatedAt then
      SortedCons(n, s);
      [n] + s
    else
      var rest := InsertByUpdated(n, s[1..]);
      assert s == [s[0]] + s[1..];
      SortedCons(s[0], rest);
      [s[0]] + rest
  }

  /** `.sort({updatedAt: -1})`: the same notes, newest update first. */
  function SortByUpdatedDesc(s: seq<Note>): (r: seq<Note>)
    ensures SortedByUpdatedDesc(r)
    ensures multiset(r) == multiset(s)
  {
    if s == [] then []
    else
      assert s == [s[0]] + s[1..];
      InsertByUpdated(s[0], SortByUpdatedDesc(s[1..]))
  }

  /** The list route's result: the notes the query selects, newest update first. Only the user's
      own notes appear. */
  function ListedNotes(notes: seq<Note>, uid: Id, search: string, re: RegexEngine): (r: seq<Note>)
    ensures SortedByUpdatedDesc(r)
    ensures forall n :: multiset(r)[n] == if Listed(n, uid, search, re) then multiset(notes)[n] else 0
    ensures forall n :: n in r ==> n in notes && n.userId == uid
  {
    var listed := SortByUpdatedDesc(SelectNotes(notes, uid, search, re));
    assert forall n :: n in listed ==> multiset(listed)[n] > 0;
    listed
  }

  /** `findOne({_id, userId})`: the first note with that id that belongs to `uid`. */
  function FindOwnedNote(notes: seq<Note>, uid: Id, id: Id): (r: Option<nat>)
    ensures r.Some? ==> r.value < |notes| && notes[r.value].id == id && notes[r.value].userId == uid
    ensures r.None? <==> forall j :: 0 <= j < |notes| ==> !(notes[j].id == id && notes[j].userId == uid)
  {
    FirstIndex(notes, (n: Note) => n.id == id && n.userId == uid)
  }

  /** With unique ids, the note holding an id is found for its owner and for nobody else. */
  lemma FindOwnedNoteById(notes: seq<Note>, bound: Id, owners: set<Id>, k: nat, uid: Id)
    requires NotesValid(notes, bound, owners) && k < |notes|
    ensures FindOwnedNote(notes, uid, notes[k].id) == if notes[k].userId == uid then Some(k) else None
  {
    IdIdentifiesNote(notes, bound, owners, k);
  }

  /** The document `findOneAndUpdate` returns with `{new: true}`: the `trim` setter runs on the new
      title, `timestamps` refreshes `updatedAt`, and no validator runs. */
  function ApplyUpdate(n: Note, title: string, content: string, now: int): (r: Note)
    ensures r.id == n.id && r.userId == n.userId && r.createdAt == n.createdAt
    ensures r.title == Trim(title) && r.content == content && r.updatedAt == now
    ensures content != "" ==> NoteStored(r)
  {
    n.(title := Trim(title), content := content, updatedAt := now)
  }

  /** An update is not validated: a white-space-only title, which creation rejects, is stored as an
      empty title. */
  lemma UpdateSkipsTitleValidation(n: Note, now: int)
    requires NoteSchemaValid(n)
    ensures NoteStored(ApplyUpdate(n, " ", n.content, now))
    ensures !NoteSchemaValid(ApplyUpdate(n, " ", n.content, now))
  {
    TrimEmptyIffWhiteSpace(" ");
  }

  /** Once a note is deleted from a valid table, its id is found for nobody. */
  lemma RemovedNoteNotFound(notes: seq<Note>, bound: Id, owners: set<Id>, k: nat, uid: Id)
    requires NotesValid(notes, bound, owners) && k < |notes|
    ensures FindOwnedNote(RemoveAt(notes, k), uid, notes[k].id).None?
  {
    var after := RemoveAt(notes, k);
    IdIdentifiesNote(notes, bound, owners, k);
    forall j | 0 <= j < |after| ensures after[j].id != notes[k].id {
      if j < k {
        assert after[j] == notes[j];
      } else {
        assert after[j] == notes[j + 1];
      }
    }
  }
}

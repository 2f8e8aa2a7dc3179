/** The note schema: its field constraints as validity predicates and the notes table invariant. */
module NoteModel {
  import opened Wrappers
  import opened JsValue
  import opened JsString
  import opened DocumentStore

  datatype Note = Note(id: Id, userId: Id, title: string, content: string, createdAt: int, updatedAt: int)

  const TitleMaxLength := 100

  /** What every stored note satisfies, updated ones included: the `trim` setter ran on the title
      and the content is a non-empty string. */
  predicate NoteStored(n: Note) {
    IsTrimmed(n.title) && n.content != ""
  }

  /** What the schema's validators accept on save: a required (non-empty) trimmed title of at most
      100 UTF-16 units and a required content. */
  predicate NoteSchemaValid(n: Note) {
    NoteStored(n) && n.title != "" && Utf16Length(n.title) <= TitleMaxLength
  }

  /** `new Note({userId, title, content})` at time `now`: both fields are cast to strings (None on a
      cast error), the title is trimmed and `timestamps` sets both dates. */
  function NewNote(id: Id, userId: Id, title: Json, content: Json, now: int): (r: Option<Note>)
    ensures r.Some? <==> CastToString(title).Some? && CastToString(content).Some?
    ensures r.Some? ==>
      && r.value.id == id && r.value.userId == userId
      && r.value.title == Trim(CastToString(title).value) && r.value.content == CastToString(content).value
      && r.value.createdAt == now && r.value.updatedAt == now
    ensures r.Some? && Truthy(content) ==> NoteStored(r.value)
  {
    match (CastToString(title), CastToString(content))
    case (Some(t), Some(c)) => Some(Note(id, userId, Trim(t), c, now, now))
    case _ => None
  }

  /** A title of white space only is truthy, so it passes the route's presence check, but it is
      empty once trimmed and the `required` validator rejects it: creation then fails on save. */
  lemma BlankTitleFailsOnCreate(id: Id, userId: Id, title: string, content: string, now: int)
    requires title != [] && forall i :: 0 <= i < |title| ==> IsWhiteSpace(title[i])
    ensures Truthy(Str(title))
    ensures NewNote(id, userId, Str(title), Str(content), now).Some?
    ensures !NoteSchemaValid(NewNote(id, userId, Str(title), Str(content), now).value)
  {
    TrimEmptyIffWhiteSpace(title);
  }

  /** The notes table: every note stored as above, ids below `bound` and unique, every note owned by
      a known user. */
  predicate NotesValid(notes: seq<Note>, bound: Id, owners: set<Id>) {
    && (forall i :: 0 <= i < |notes| ==> notes[i].id < bound && NoteStored(notes[i]) && notes[i].userId in owners)
    && (forall i, j :: 0 <= i < j < |notes| ==> notes[i].id != notes[j].id)
  }

  /** A larger id bound and more known users keep the table valid. */
  lemma NotesValidWeaken(notes: seq<Note>, bound: Id, owners: set<Id>, bound': Id, owners': set<Id>)
    requires NotesValid(notes, bound, owners) && bound <= bound' && owners <= owners'
    ensures NotesValid(notes, bound', owners')
  {
  }

  /** Saving a note that passed validation, with a fresh id and a known owner, keeps the table valid. */
  lemma InsertNoteKeepsValid(notes: seq<Note>, bound: Id, owners: set<Id>, n: Note)
    requires NotesValid(notes, bound, owners) && n.id == bound && n.userId in owners && NoteStored(n)
    ensures NotesValid(notes + [n], bound + 1, owners)
  {
    var t := notes + [n];
    assert forall i :: 0 <= i < |notes| ==> t[i] == notes[i];
  }

  /** Replacing a note by one with the same id and owner that is still stored keeps the table valid. */
  lemma ReplaceNoteKeepsValid(notes: seq<Note>, bound: Id, owners: set<Id>, k: nat, n: Note)
    requires NotesValid(notes, bound, owners) && k < |notes|
    requires n.id == notes[k].id && n.userId == notes[k].userId && NoteStored(n)
    ensures NotesValid(notes[k := n], bound, owners)
  {
  }

  /** Deleting one note keeps the table valid. */
  lemma RemoveNoteKeepsValid(notes: seq<Note>, bound: Id, owners: set<Id>, k: nat)
    requires NotesValid(notes, bound, owners) && k < |notes|
    ensures NotesValid(RemoveAt(notes, k), bound, owners)
  {
    var t := RemoveAt(notes, k);
    forall i, j | 0 <= i < j < |t| ensures t[i].id != t[j].id {
      var i', j' := if i < k then i else i + 1, if j < k then j else j + 1;
      assert t[i] == notes[i'] && t[j] == notes[j'];
    }
  }

  /** In a valid table an id names at most one note. */
  lemma IdIdentifiesNote(notes: seq<Note>, bound: Id, owners: set<Id>, k: nat)
    requires NotesValid(notes, bound, owners) && k < |notes|
    ensures forall j :: 0 <= j < |notes| && j != k ==> notes[j].id != notes[k].id
  {
  }
}

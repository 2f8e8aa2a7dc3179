/** The replies the handlers send: a status code and a JSON body. */
module Http {
  import opened NoteModel

  datatype Body =
    | Message(text: string)
    | LoginBody(message: string, token: string, username: string)
    | NoteBody(note: Note)
    | NoteList(notes: seq<Note>)

  datatype Reply = Reply(status: int, body: Body)
}

/** The five request handlers of the notes service, each a pure function
    from a request and the table to a response and the new table. */
module Notes {
  import opened Wrappers
  import opened Text
  import opened Sql

  /** A JSON value that can appear in an envelope. */
  datatype Value = Str(s: string) | Row(note: Note) | RowList(notes: seq<Note>)

  /** The JSON object sent back; keys whose value is `undefined` are omitted,
      as `JSON.stringify` does. */
  type Envelope = map<string, Value>

  datatype Response = Response(code: int, body: Envelope)

  /** The JSON request body `{title, content}`; a missing key is None. */
  datatype Body = Body(title: Option<string>, content: Option<string>)

  /** A handler's effect: the response and the table afterwards. */
  datatype Handled = Handled(response: Response, store: Store)

  /** `!v || !v.trim()` on a string-or-undefined field. */
  predicate Missing(v: Option<string>) {
    v.None? || Trim(v.value) == []
  }

  /** Adds `data` to an envelope when `notes[0]` exists. */
  function WithFirst(e: Envelope, rows: seq<Note>): (r: Envelope) {
    if |rows| > 0 then e["data" := Row(rows[0])] else e
  }

  function Fail(code: int, message: string): (r: Response) {
    Response(code, map["status" := Str("fail"), "message" := Str(message)])
  }

  /** GET /notes. */
  function GetAllNotes(s: Store): (h: Handled)
    ensures h.store == s
    ensures h.response.code == 200
    ensures h.response.body == map["message" := Str("success"), "data" := RowList(AllRows(s))]
  {
    var (s1, r) := Execute(s, SelectAll, 0);
    Handled(Response(200, map["message" := Str("success"), "data" := RowList(r.rows)]), s1)
  }

  /** POST /notes. `now` stands for the database clock at insert time. */
  function AddNote(b: Body, s: Store, now: Timestamp): (h: Handled)
    requires Valid(s)
    ensures Valid(h.store)
    ensures Missing(b.title) ==> h == Handled(Fail(400, "Title is required"), s)
    ensures !Missing(b.title) && Missing(b.content) ==> h == Handled(Fail(400, "Content is required"), s)
    ensures !Missing(b.title) && !Missing(b.content) ==>
      var row := Note(s.nextId, b.title, b.content, now);
      && s.nextId !in s.rows
      && h.store == Store(s.rows[s.nextId := row], s.nextId + 1)
      && h.response == Response(201, map["status" := Str("success"), "message" := Str("Note created"), "data" := Row(row)])
  {
    if Missing(b.title) then Handled(Fail(400, "Title is required"), s)
    else if Missing(b.content) then Handled(Fail(400, "Content is required"), s)
    else InsertAndEcho(b, s, now)
  }

  /** The success path of POST /notes: INSERT, then read the row back by
      the reported insert id. */
  function InsertAndEcho(b: Body, s: Store, now: Timestamp): (h: Handled)
    requires Valid(s)
    ensures var row := Note(s.nextId, b.title, b.content, now);
      && h.store == Store(s.rows[s.nextId := row], s.nextId + 1)
      && h.response == Response(201, map["status" := Str("success"), "message" := Str("Note created"), "data" := Row(row)])
  {
    var (s1, ins) := Execute(s, InsertNote(b.title, b.content), now);
    var (s2, sel) := Execute(s1, SelectById(ins.insertId), now);
    Handled(Response(201, WithFirst(map["status" := Str("success"), "message" := Str("Note created")], sel.rows)), s2)
  }

  /** GET /notes/:id. */
  function GetNoteById(id: nat, s: Store): (h: Handled)
    ensures h.store == s
    ensures id !in s.rows ==> h.response == Fail(404, "note not found")
    ensures id in s.rows ==>
      h.response == Response(200, map["status" := Str("success"), "data" := Row(s.rows[id])])
  {
    var (s1, sel) := Execute(s, SelectById(id), 0);
    if LengthIs(sel, 0) then Handled(Fail(404, "note not found"), s1)
    else Handled(Response(200, WithFirst(map["status" := Str("success")], sel.rows)), s1)
  }

  /** PUT /notes/:id. No field is validated: whatever the body holds,
      including a blank or missing value (stored as NULL), is written. */
  function UpdateNoteById(id: nat, b: Body, s: Store): (h: Handled)
    requires Valid(s)
    ensures Valid(h.store)
    ensures id !in s.rows ==> h == Handled(Fail(404, "note not found"), s)
    ensures id in s.rows ==>
      var row := s.rows[id].(title := b.title, content := b.content);
      && h.store == s.(rows := s.rows[id := row])
      && row.id == id && row.createdAt == s.rows[id].createdAt
      && h.response == Response(200, map["status" := Str("success"),
                                         "message" := Str("Note updated successfully"),
                                         "data" := Row(row)])
  {
    var (s1, _) := Execute(s, UpdateById(id, b.title, b.content), 0);
    var (s2, sel) := Execute(s1, SelectById(id), 0);
    if LengthIs(sel, 0) then Handled(Fail(404, "note not found"), s2)
    else Handled(Response(200, WithFirst(map["status" := Str("success"),
                                             "message" := Str("Note updated successfully")], sel.rows)), s2)
  }

  /** DELETE /notes/:id, as written: the not-found guard tests `.length` of
      the DELETE result header, which is never 0, so the answer is always 200. */
  function DeleteNoteById(id: nat, s: Store): (h: Handled)
    requires Valid(s)
    ensures Valid(h.store)
    ensures h.store == s.(rows := s.rows - {id})
    ensures h.response == Response(200, map["status" := Str("success"),
                                            "message" := Str("Note deletede successfully")])
  {
    var (s1, del) := Execute(s, DeleteById(id), 0);
    if LengthIs(del, 0) then
      Handled(Response(404, map["status" := Str("fail"), "meesage" := Str("note not found")]), s1)
    else
      Handled(Response(200, map["status" := Str("success"), "message" := Str("Note deletede successfully")]), s1)
  }

  /** The as-written guard never fires: deleting an id that is not in the
      table still answers 200 "success" and changes nothing. */
  lemma DeleteAbsentStillSucceeds(id: nat, s: Store)
    requires Valid(s) && id !in s.rows
    ensures DeleteNoteById(id, s).response.code == 200
    ensures DeleteNoteById(id, s).response.body["status"] == Str("success")
    ensures DeleteNoteById(id, s).store == s
  {
  }

  /** DELETE /notes/:id as evidently intended: the guard reads the header's
      affected-row count. */
  function DeleteNoteByIdIntended(id: nat, s: Store): (h: Handled)
    requires Valid(s)
    ensures Valid(h.store)
    ensures h.store == s.(rows := s.rows - {id})
    ensures h.response.code == 404 <==> id !in s.rows
    ensures h.response.code == 200 <==> id in s.rows
    ensures id !in s.rows ==> h.response == Fail(404, "note not found")
    ensures id in s.rows ==>
      h.response == Response(200, map["status" := Str("success"), "message" := Str("Note deletede successfully")])
  {
    var (s1, del) := Execute(s, DeleteById(id), 0);
    if del.Header? && del.affectedRows == 0 then Handled(Fail(404, "note not found"), s1)
    else
      Handled(Response(200, map["status" := Str("success"), "message" := Str("Note deletede successfully")]), s1)
  }
}

/** The view-state logic of the single-page client: the title search, the
    in-place patch after an update, the re-fetch rule after add and delete,
    the empty-list message and the form reset. */
module Client {
  import opened Wrappers
  import opened Text
  import opened Sql
  import opened Notes

  /** An entry of the client's `notes` array; it becomes `undefined` when an
      update response carries no `data`. */
  datatype Slot = Undefined | Defined(note: Note)

  /** `note.title.toLowerCase()` can be evaluated without throwing. */
  predicate Readable(slot: Slot) {
    slot.Defined? && slot.note.title.Some?
  }

  ghost predicate AllReadable(notes: seq<Slot>) {
    forall i :: 0 <= i < |notes| ==> Readable(notes[i])
  }

  /** The search predicate: the lower-cased title contains the lower-cased
      search string. */
  predicate Keeps(slot: Slot, search: string)
    requires Readable(slot)
  {
    Includes(Lower(slot.note.title.value), Lower(search))
  }

  /** `notes.filter(note => note.title.toLowerCase().includes(search.toLowerCase()))`;
      None when the callback throws on an entry that is undefined or has a
      NULL title. */
  function FilterByTitle(notes: seq<Slot>, search: string): (r: Option<seq<Note>>)
    ensures r.Some? <==> AllReadable(notes)
    ensures r.Some? ==> |r.value| <= |notes|
    ensures r.Some? ==> forall n :: n in r.value ==> Readable(Defined(n)) && Keeps(Defined(n), search)
  {
    if |notes| == 0 then Some([])
    else if !Readable(notes[0]) then None
    else
      match FilterByTitle(notes[1..], search)
      case None => None
      case Some(rest) =>
        assert AllReadable(notes) by {
          forall i | 0 < i < |notes| ensures Readable(notes[i]) {
            assert notes[i] == notes[1..][i - 1];
          }
        }
        if Keeps(notes[0], search) then Some([notes[0].note] + rest) else Some(rest)
  }

  /** The filter keeps exactly the matching entries, in their original
      order: `idx` lists the positions kept, strictly ascending, and a
      position is kept iff its entry matches. */
  lemma {:induction false} FilterSelectsExactly(notes: seq<Slot>, search: string) returns (idx: seq<nat>)
    requires AllReadable(notes)
    ensures FilterByTitle(notes, search).Some?
    ensures |idx| == |FilterByTitle(notes, search).value|
    ensures forall j :: 0 <= j < |idx| ==>
      idx[j] < |notes| && FilterByTitle(notes, search).value[j] == notes[idx[j]].note
    ensures forall j, k :: 0 <= j < k < |idx| ==> idx[j] < idx[k]
    ensures forall i :: 0 <= i < |notes| ==> (i in idx <==> Keeps(notes[i], search))
  {
    if |notes| == 0 {
      idx := [];
    } else {
      var tail := notes[1..];
      assert AllReadable(tail) by {
        forall i | 0 <= i < |tail| ensures Readable(tail[i]) {
          assert tail[i] == notes[i + 1];
        }
      }
      var t := FilterSelectsExactly(tail, search);
      var shifted := ShiftIndices(t);
      var rt := FilterByTitle(tail, search).value;
      var r := FilterByTitle(notes, search).value;
      if Keeps(notes[0], search) {
        assert r == [notes[0].note] + rt;
        idx := [0] + shifted;
      } else {
        assert r == rt;
        idx := shifted;
      }
      forall i | 0 < i < |notes| ensures i in idx <==> Keeps(notes[i], search) {
        assert notes[i] == tail[i - 1];
      }
    }
  }

  /** Every position moved up by one. */
  lemma ShiftIndices(t: seq<nat>) returns (u: seq<nat>)
    ensures |u| == |t|
    ensures forall j :: 0 <= j < |t| ==> u[j] == t[j] + 1
    ensures forall i :: i in u <==> 1 <= i && i - 1 in t
  {
    u := seq(|t|, j requires 0 <= j < |t| => t[j] + 1);
    forall i | 1 <= i && i - 1 in t ensures i in u {
      var j :| 0 <= j < |t| && t[j] == i - 1;
      assert u[j] == i;
    }
  }

  /** The notes held by a list whose entries are all defined. */
  function Unwrap(notes: seq<Slot>): (r: seq<Note>)
    requires forall i :: 0 <= i < |notes| ==> notes[i].Defined?
    ensures |r| == |notes|
    ensures forall i :: 0 <= i < |notes| ==> r[i] == notes[i].note
  {
    seq(|notes|, i requires 0 <= i < |notes| => notes[i].note)
  }

  /** An empty search string keeps every note. */
  lemma {:induction false} EmptySearchKeepsAll(notes: seq<Slot>)
    requires AllReadable(notes)
    ensures FilterByTitle(notes, "") == Some(Unwrap(notes))
  {
    if |notes| > 0 {
      var tail := notes[1..];
      assert AllReadable(tail) by {
        forall i | 0 <= i < |tail| ensures Readable(tail[i]) {
          assert tail[i] == notes[i + 1];
        }
      }
      EmptySearchKeepsAll(tail);
      IncludesEmpty(Lower(notes[0].note.title.value));
      assert Lower("") == "";
      assert Keeps(notes[0], "");
      assert Unwrap(notes) == [notes[0].note] + Unwrap(tail);
    }
  }

  /** The search ignores the case of the search string. */
  lemma {:induction false} SearchIgnoresCase(notes: seq<Slot>, search: string)
    ensures FilterByTitle(notes, Lower(search)) == FilterByTitle(notes, search)
  {
    LowerIdempotent(search);
    if |notes| > 0 {
      SearchIgnoresCase(notes[1..], search);
    }
  }

  /** The `id` of an entry; None is `undefined.id`, which throws. */
  function SlotOf(data: Option<Note>): (r: Slot) {
    match data
    case Some(n) => Defined(n)
    case None => Undefined
  }

  /** `prev.map(note => note.id === id ? data : note)`; None when the callback
      throws on an undefined entry. */
  function PatchById(notes: seq<Slot>, id: nat, data: Option<Note>): (r: Option<seq<Slot>>)
    ensures r.Some? <==> forall i :: 0 <= i < |notes| ==> notes[i].Defined?
    ensures r.Some? ==> |r.value| == |notes|
    ensures r.Some? ==> forall i :: 0 <= i < |notes| ==>
      r.value[i] == (if notes[i].note.id == id then SlotOf(data) else notes[i])
  {
    if |notes| == 0 then Some([])
    else if notes[0].Undefined? then None
    else
      match PatchById(notes[1..], id, data)
      case None => None
      case Some(rest) =>
        assert forall i :: 0 < i < |notes| ==> notes[i] == notes[1..][i - 1];
        Some([if notes[0].note.id == id then SlotOf(data) else notes[0]] + rest)
  }

  /** `result.data` of a response. */
  function DataOf(res: Response): (d: Option<Note>)
    ensures d.Some? <==> "data" in res.body && res.body["data"].Row?
  {
    if "data" in res.body && res.body["data"].Row? then Some(res.body["data"].note) else None
  }

  /** `handleUpdateNote`: the answer's `data` is patched in whatever the
      status code was; an answer without `data` leaves `undefined` behind. */
  function AfterUpdate(notes: seq<Slot>, id: nat, res: Response): (r: Option<seq<Slot>>)
    ensures r.Some? <==> forall i :: 0 <= i < |notes| ==> notes[i].Defined?
    ensures r.Some? ==> |r.value| == |notes|
    ensures r.Some? ==> forall i :: 0 <= i < |notes| && notes[i].note.id == id ==>
      r.value[i] == (if "data" in res.body && res.body["data"].Row? then Defined(res.body["data"].note) else Undefined)
    ensures r.Some? ==> forall i :: 0 <= i < |notes| && notes[i].note.id != id ==> r.value[i] == notes[i]
  {
    PatchById(notes, id, DataOf(res))
  }

  /** The status code plays no part: `res.ok` is never consulted. */
  lemma PatchIgnoresStatus(notes: seq<Slot>, id: nat, res: Response, code: int)
    ensures AfterUpdate(notes, id, res.(code := code)) == AfterUpdate(notes, id, res)
  {
  }

  /** When no entry has the id, the patch changes nothing. */
  lemma PatchWithoutMatchIsIdentity(notes: seq<Slot>, id: nat, data: Option<Note>)
    requires forall i :: 0 <= i < |notes| ==> notes[i].Defined? && notes[i].note.id != id
    ensures PatchById(notes, id, data) == Some(notes)
  {
    var r := PatchById(notes, id, data);
    assert forall i :: 0 <= i < |notes| ==> r.value[i] == notes[i];
    assert r.value == notes;
  }

  /** A 404 answer to an update has no `data`, so the matching entry becomes
      `undefined`; the next search filter then throws. */
  lemma UpdateNotFoundBreaksList(notes: seq<Slot>, id: nat, i: nat, search: string)
    requires forall j :: 0 <= j < |notes| ==> notes[j].Defined?
    requires i < |notes| && notes[i].note.id == id
    ensures var r := AfterUpdate(notes, id, Fail(404, "note not found"));
      r.Some? && r.value[i] == Undefined && FilterByTitle(r.value, search) == None
  {
    var r := AfterUpdate(notes, id, Fail(404, "note not found"));
    assert r.value[i] == Undefined;
    assert !Readable(r.value[i]);
  }

  /** `res.ok`: a 2xx status. */
  predicate IsOk(code: int) {
    200 <= code <= 299
  }

  /** The client's copy of a listing fetched from the server. */
  function Mirror(rows: seq<Note>): (r: seq<Slot>)
    ensures |r| == |rows|
    ensures forall i :: 0 <= i < |rows| ==> r[i] == Defined(rows[i])
  {
    seq(|rows|, i requires 0 <= i < |rows| => Defined(rows[i]))
  }

  /** `addNote` and `handleDelete`: `notes` is replaced by a fresh listing
      only when the response is ok, and is otherwise left as it was. */
  function AfterMutation(notes: seq<Slot>, res: Response, fetched: seq<Note>): (r: seq<Slot>)
    ensures IsOk(res.code) ==> r == Mirror(fetched)
    ensures !IsOk(res.code) ==> r == notes
  {
    if IsOk(res.code) then Mirror(fetched) else notes
  }

  /** What the list area shows when the filtered list is empty; None when
      there are notes to render. */
  function EmptyMessage(filtered: seq<Note>, search: string): (m: Option<string>)
    ensures m.None? <==> |filtered| > 0
    ensures m == Some("Note tidak ditemukan.") <==> |filtered| == 0 && search != ""
    ensures m == Some("Belum ada Note. Tambahkan satu!") <==> |filtered| == 0 && search == ""
  {
    if |filtered| > 0 then None
    else if search != "" then Some("Note tidak ditemukan.")
    else Some("Belum ada Note. Tambahkan satu!")
  }

  /** With an empty search, the invitation to add a note appears exactly
      when the client holds no notes at all. */
  lemma EmptySearchMessage(notes: seq<Slot>)
    requires AllReadable(notes)
    ensures EmptyMessage(FilterByTitle(notes, "").value, "") == Some("Belum ada Note. Tambahkan satu!")
            <==> |notes| == 0
  {
    EmptySearchKeepsAll(notes);
  }

  /** With a non-empty search, "not found" appears exactly when no note's
      title matches it. */
  lemma NotFoundMessage(notes: seq<Slot>, search: string)
    requires AllReadable(notes) && search != ""
    ensures EmptyMessage(FilterByTitle(notes, search).value, search) == Some("Note tidak ditemukan.")
            <==> forall i :: 0 <= i < |notes| ==> !Keeps(notes[i], search)
  {
    var idx := FilterSelectsExactly(notes, search);
    if exists i :: 0 <= i < |notes| && Keeps(notes[i], search) {
      var i :| 0 <= i < |notes| && Keeps(notes[i], search);
      assert i in idx;
    }
  }

  /** The create form's fields. */
  datatype Form = Form(title: string, content: string)

  /** A submission: the body handed to `onAddNote` and the form afterwards. */
  datatype Submitted = Submitted(sent: Body, form: Form)

  /** Submitting the form. Both fields are `required`, so the browser
      fires no submit event while either is "" (None: nothing is sent and
      the form keeps its contents). Otherwise `handleSubmit` sends the
      current fields and clears both, whatever the request's outcome. */
  function Submit(f: Form): (r: Option<Submitted>)
    ensures r.Some? <==> f.title != [] && f.content != []
    ensures r.Some? ==> r.value.sent.title == Some(f.title) && r.value.sent.content == Some(f.content)
    ensures r.Some? ==> r.value.form.title == [] && r.value.form.content == []
  {
    if f.title == [] || f.content == [] then None
    else Some(Submitted(Body(Some(f.title), Some(f.content)), Form("", "")))
  }

  /** The cleared form cannot be submitted again. */
  lemma ClearedFormIsBlocked(f: Form)
    requires Submit(f).Some?
    ensures Submit(Submit(f).value.form) == None
  {
  }
}

/** Properties that span the service and the client: what a sequence of
    requests does to the table, and how the client's copy follows it. */
module Sync {
  import opened Wrappers
  import opened Text
  import opened Sql
  import opened Notes
  import opened Client

  /** No stored title or content is NULL or whitespace-only. */
  ghost predicate AllNonBlank(s: Store) {
    forall k :: k in s.rows ==> !Missing(s.rows[k].title) && !Missing(s.rows[k].content)
  }

  /** POST keeps the table free of blank fields. */
  lemma AddPreservesNonBlank(b: Body, s: Store, now: Timestamp)
    requires Valid(s) && AllNonBlank(s)
    ensures AllNonBlank(AddNote(b, s, now).store)
  {
  }

  /** PUT does not: a whitespace title and a missing content are stored as
      they are, and the answer is still 200. */
  lemma UpdateMayStoreBlank(s: Store, id: nat)
    requires Valid(s) && id in s.rows
    ensures var h := UpdateNoteById(id, Body(Some(" "), None), s);
      && h.response.code == 200
      && Missing(h.store.rows[id].title) && Missing(h.store.rows[id].content)
      && !AllNonBlank(h.store)
  {
    var h := UpdateNoteById(id, Body(Some(" "), None), s);
    assert Trim(" ") == [] by {
      BlankIffAllSpace(" ");
    }
    assert Missing(h.store.rows[id].title);
  }

  /** A successful POST appends the new row at the end of `SELECT *`. */
  lemma AddAppendsToListing(b: Body, s: Store, now: Timestamp)
    requires Valid(s) && !Missing(b.title) && !Missing(b.content)
    ensures AllRows(AddNote(b, s, now).store) == AllRows(s) + [Note(s.nextId, b.title, b.content, now)]
  {
    InsertAppendsToListing(s, b.title, b.content, now);
  }

  /** Client after an accepted form submission: the new note shows up at
      the end of the re-fetched list. */
  lemma SubmitReconciles(f: Form, notes: seq<Slot>, s: Store, now: Timestamp)
    requires Valid(s)
    ensures Submit(f).Some? && !Missing(Some(f.title)) && !Missing(Some(f.content)) ==>
      var h := AddNote(Submit(f).value.sent, s, now);
      AfterMutation(notes, h.response, AllRows(h.store))
        == Mirror(AllRows(s) + [Note(s.nextId, Some(f.title), Some(f.content), now)])
  {
    if Submit(f).Some? && !Missing(Some(f.title)) && !Missing(Some(f.content)) {
      AddAppendsToListing(Submit(f).value.sent, s, now);
    }
  }

  /** Client after a submission the service rejects: list and table stay
      as they were. */
  lemma RejectedSubmitKeepsList(f: Form, notes: seq<Slot>, s: Store, now: Timestamp)
    requires Valid(s)
    ensures Submit(f).Some? && (Missing(Some(f.title)) || Missing(Some(f.content))) ==>
      var h := AddNote(Submit(f).value.sent, s, now);
      h.store == s && AfterMutation(notes, h.response, AllRows(h.store)) == notes
  {
  }

  /** A whitespace-only title gets past the browser's `required` check but
      not the service: the answer is 400 "Title is required", the table
      and the list are unchanged, and the form is cleared anyway, so what
      the user typed is lost. */
  lemma WhitespaceTitleIsLost(f: Form, notes: seq<Slot>, s: Store, now: Timestamp)
    requires Valid(s)
    requires f.title != [] && AllSpace(f.title) && f.content != []
    ensures Submit(f).Some?
    ensures var h := AddNote(Submit(f).value.sent, s, now);
      && h == Handled(Fail(400, "Title is required"), s)
      && AfterMutation(notes, h.response, AllRows(h.store)) == notes
      && Submit(f).value.form == Form("", "")
  {
    BlankIffAllSpace(f.title);
  }

  /** A fresh table hands out id 1 to the first note, and lists just it. */
  lemma FirstNoteGetsIdOne(b: Body, now: Timestamp)
    requires !Missing(b.title) && !Missing(b.content)
    ensures var h := AddNote(b, EmptyStore(), now);
      && h.response.body["data"] == Row(Note(1, b.title, b.content, now))
      && AllRows(h.store) == [Note(1, b.title, b.content, now)]
  {
    AddAppendsToListing(b, EmptyStore(), now);
  }

  /** Replacing the row under `k` replaces, position by position, the
      listed row with that id and nothing else. */
  lemma {:induction false} RowsBelowReplace(m: map<nat, Note>, k: nat, v: Note, n: nat)
    requires forall j :: j in m ==> m[j].id == j
    requires k in m && v.id == k
    ensures |RowsBelow(m[k := v], n)| == |RowsBelow(m, n)|
    ensures forall i :: 0 <= i < |RowsBelow(m, n)| ==>
      RowsBelow(m[k := v], n)[i] == (if RowsBelow(m, n)[i].id == k then v else RowsBelow(m, n)[i])
  {
    if n > 0 {
      RowsBelowReplace(m, k, v, n - 1);
    }
  }

  /** The client's local patch after a successful update yields exactly
      what a re-fetch would: the patched mirror equals the mirror of the
      new listing. */
  lemma UpdatePatchAgreesWithRefetch(notes: seq<Slot>, id: nat, b: Body, s: Store)
    requires Valid(s) && id in s.rows
    requires notes == Mirror(AllRows(s))
    ensures var h := UpdateNoteById(id, b, s);
      AfterUpdate(notes, id, h.response) == Some(Mirror(AllRows(h.store)))
  {
    var h := UpdateNoteById(id, b, s);
    var row := s.rows[id].(title := b.title, content := b.content);
    RowsBelowReplace(s.rows, id, row, s.nextId);
    assert DataOf(h.response) == Some(row);
    var r := AfterUpdate(notes, id, h.response);
    assert r.Some?;
    assert r.value == Mirror(AllRows(h.store));
  }

  /** DELETE removes the row with that id from the listing and keeps the rest. */
  lemma DeleteListing(id: nat, s: Store)
    requires Valid(s)
    ensures var s' := DeleteNoteById(id, s).store;
      forall x :: x in AllRows(s') <==> x in AllRows(s) && x.id != id
  {
    var s' := DeleteNoteById(id, s).store;
    AllRowsExact(s);
    AllRowsExact(s');
    forall x ensures x in AllRows(s') <==> x in AllRows(s) && x.id != id {
      if x in s.rows.Values && x.id != id {
        var k :| k in s.rows && s.rows[k] == x;
        assert k in s'.rows;
      }
    }
  }

  /** Because every DELETE answers 200, the client always re-fetches after
      a delete, even of an id that was already gone. */
  lemma DeleteAlwaysRefetches(notes: seq<Slot>, id: nat, s: Store)
    requires Valid(s)
    ensures var h := DeleteNoteById(id, s);
      AfterMutation(notes, h.response, AllRows(h.store)) == Mirror(AllRows(h.store))
  {
  }

  /** With the corrected not-found guard, the client re-fetches after a
      delete exactly when the row existed; deleting an absent id leaves
      its list as it was. */
  lemma IntendedDeleteReconciles(notes: seq<Slot>, id: nat, s: Store)
    requires Valid(s)
    ensures var h := DeleteNoteByIdIntended(id, s);
      var after := AfterMutation(notes, h.response, AllRows(h.store));
      && (id in s.rows ==> after == Mirror(AllRows(h.store)))
      && (id !in s.rows ==> after == notes && h.store == s)
  {
    var h := DeleteNoteByIdIntended(id, s);
    if id !in s.rows {
      assert s.rows - {id} == s.rows;
    }
  }

  /** Create then read back: the new id answers 200 with the stored fields. */
  lemma AddThenGet(b: Body, s: Store, now: Timestamp)
    requires Valid(s) && !Missing(b.title) && !Missing(b.content)
    ensures var h := AddNote(b, s, now);
      GetNoteById(s.nextId, h.store).response ==
        Response(200, map["status" := Str("success"), "data" := Row(Note(s.nextId, b.title, b.content, now))])
  {
  }

  /** Update then read back: the new fields, the original id and timestamp. */
  lemma UpdateThenGet(id: nat, b: Body, s: Store)
    requires Valid(s) && id in s.rows
    ensures var h := UpdateNoteById(id, b, s);
      var g := GetNoteById(id, h.store).response;
      && g.code == 200
      && g.body["data"] == Row(Note(id, b.title, b.content, s.rows[id].createdAt))
  {
  }

  /** Delete then read back: not found. */
  lemma DeleteThenGet(id: nat, s: Store)
    requires Valid(s)
    ensures GetNoteById(id, DeleteNoteById(id, s).store).response == Fail(404, "note not found")
  {
  }
}

/** The `notes` table and the five single-statement queries the service
    sends to it, executed over an abstract in-memory table. */
module Sql {
  import opened Wrappers

  /** A nullable text column: None is SQL NULL. */
  type Text = Option<string>

  /** Opaque value of `created_at`, supplied by the database clock. */
  type Timestamp = int

  /** One row of `notes`. */
  datatype Note = Note(id: nat, title: Text, content: Text, createdAt: Timestamp)

  /** The table: rows keyed by primary key, plus the AUTO_INCREMENT counter. */
  datatype Store = Store(rows: map<nat, Note>, nextId: nat)

  /** Every row sits under its own id, and the counter is above every id,
      so ids handed out later are fresh. */
  ghost predicate Valid(s: Store) {
    && s.nextId >= 1
    && forall k :: k in s.rows ==> k < s.nextId && s.rows[k].id == k
  }

  /** An empty table; MySQL's AUTO_INCREMENT starts at 1. */
  function EmptyStore(): (s: Store)
    ensures Valid(s) && s.rows == map[]
  {
    Store(map[], 1)
  }

  /** The statements the notes handlers issue, with their bound parameters. */
  datatype Statement =
    | SelectAll                                       // SELECT * FROM notes
    | SelectById(id: nat)                             // SELECT * FROM notes WHERE id = ?
    | InsertNote(title: Text, content: Text)          // INSERT INTO notes (title, content) VALUES (?, ?)
    | UpdateById(id: nat, title: Text, content: Text) // UPDATE notes SET title = ?, content = ? WHERE id = ?
    | DeleteById(id: nat)                             // DELETE FROM notes WHERE id = ?

  /** What the driver hands back: a row list for SELECT, a result header
      (affected rows, insert id) for INSERT, UPDATE and DELETE. */
  datatype QueryResult =
    | Rows(rows: seq<Note>)
    | Header(affectedRows: nat, insertId: nat)

  /** JavaScript's `result.length === n`. A result header has no `length`
      property, so the comparison is `undefined === n`, which is false. */
  predicate LengthIs(r: QueryResult, n: nat) {
    r.Rows? && |r.rows| == n
  }

  /** The rows with id below `n`, in ascending id order. */
  function RowsBelow(m: map<nat, Note>, n: nat): (r: seq<Note>)
  {
    if n == 0 then []
    else RowsBelow(m, n - 1) + (if n - 1 in m then [m[n - 1]] else [])
  }

  /** `SELECT * FROM notes`: the table in primary-key order. */
  function AllRows(s: Store): (r: seq<Note>) {
    RowsBelow(s.rows, s.nextId)
  }

  /** `SELECT ... WHERE id = ?`: zero or one row. */
  function RowsWithId(s: Store, id: nat): (r: seq<Note>)
    ensures |r| <= 1
    ensures |r| == 1 <==> id in s.rows
    ensures |r| == 1 ==> r[0] == s.rows[id]
  {
    if id in s.rows then [s.rows[id]] else []
  }

  /** Runs one statement; `now` is the value `created_at` receives on insert. */
  function Execute(s: Store, stmt: Statement, now: Timestamp): (r: (Store, QueryResult))
    // reads answer with rows and leave the table alone
    ensures stmt.SelectAll? || stmt.SelectById? ==> r.0 == s && r.1.Rows?
    // writes answer with a header that counts the rows they touched
    ensures stmt.InsertNote? ==> r.1 == Header(1, s.nextId)
    ensures stmt.UpdateById? || stmt.DeleteById? ==>
      r.1.Header? && (r.1.affectedRows == 1 <==> stmt.id in s.rows) && (r.1.affectedRows == 0 <==> stmt.id !in s.rows)
    // only INSERT moves the counter, and only forward
    ensures stmt.InsertNote? ==> r.0.nextId == s.nextId + 1 && r.0.rows.Keys == s.rows.Keys + {s.nextId}
    ensures !stmt.InsertNote? ==> r.0.nextId == s.nextId
    // UPDATE keeps the set of ids, DELETE drops exactly the one named
    ensures stmt.UpdateById? ==> r.0.rows.Keys == s.rows.Keys
    ensures stmt.DeleteById? ==> r.0.rows.Keys == s.rows.Keys - {stmt.id}
    // what the reads return and what the writes store
    ensures stmt.SelectAll? ==> r.1 == Rows(AllRows(s))
    ensures stmt.SelectById? ==> r.1 == Rows(RowsWithId(s, stmt.id))
    ensures stmt.InsertNote? ==> r.0.rows[s.nextId] == Note(s.nextId, stmt.title, stmt.content, now)
    ensures stmt.UpdateById? && stmt.id in s.rows ==>
      r.0.rows[stmt.id] == s.rows[stmt.id].(title := stmt.title, content := stmt.content)
    // every row the statement does not name keeps its value
    ensures !stmt.SelectAll? ==> forall k ::
      (k in r.0.rows && k in s.rows && (if stmt.InsertNote? then k != s.nextId else k != stmt.id))
      ==> r.0.rows[k] == s.rows[k]
  {
    match stmt
    case SelectAll => (s, Rows(AllRows(s)))
    case SelectById(id) => (s, Rows(RowsWithId(s, id)))
    case InsertNote(title, content) =>
      var row := Note(s.nextId, title, content, now);
      (Store(s.rows[s.nextId := row], s.nextId + 1), Header(1, s.nextId))
    case UpdateById(id, title, content) =>
      if id in s.rows then
        (s.(rows := s.rows[id := s.rows[id].(title := title, content := content)]), Header(1, 0))
      else (s, Header(0, 0))
    case DeleteById(id) =>
      if id in s.rows then (s.(rows := s.rows - {id}), Header(1, 0))
      else (s, Header(0, 0))
  }

  /** Every statement keeps the table well formed. */
  lemma ExecutePreservesValid(s: Store, stmt: Statement, now: Timestamp)
    requires Valid(s)
    ensures Valid(Execute(s, stmt, now).0)
  {
  }

  /** SELECT statements answer with rows and leave the table alone;
      writes answer with a result header. */
  lemma ExecuteResultShape(s: Store, stmt: Statement, now: Timestamp)
    ensures stmt.SelectAll? || stmt.SelectById? <==> Execute(s, stmt, now).1.Rows?
    ensures stmt.SelectAll? || stmt.SelectById? ==> Execute(s, stmt, now).0 == s
  {
  }

  /** INSERT adds exactly one row under a fresh id and reports that id;
      every other row is untouched. */
  lemma InsertAddsOneRow(s: Store, title: Text, content: Text, now: Timestamp)
    requires Valid(s)
    ensures var (s', r) := Execute(s, InsertNote(title, content), now);
      && r == Header(1, s.nextId)
      && s.nextId !in s.rows
      && s'.rows.Keys == s.rows.Keys + {s.nextId}
      && s'.rows[s.nextId] == Note(s.nextId, title, content, now)
      && (forall k :: k in s.rows ==> s'.rows[k] == s.rows[k])
      && s'.nextId > s.nextId
  {
  }

  /** Ids are never reused: after a DELETE the counter does not move back,
      so the next INSERT picks an id that was never in the table. */
  lemma DeletedIdNotReused(s: Store, id: nat, title: Text, content: Text, now: Timestamp)
    requires Valid(s) && id in s.rows
    ensures var s1 := Execute(s, DeleteById(id), now).0;
      Execute(s1, InsertNote(title, content), now).1.insertId != id
  {
  }

  /** `SELECT *` lists exactly the stored rows, strictly ascending by id. */
  lemma {:induction false} RowsBelowExact(m: map<nat, Note>, n: nat)
    requires forall k :: k in m ==> m[k].id == k
    ensures forall i, j :: 0 <= i < j < |RowsBelow(m, n)| ==> RowsBelow(m, n)[i].id < RowsBelow(m, n)[j].id
    ensures forall x :: x in RowsBelow(m, n) <==> exists k :: k in m && k < n && m[k] == x
    ensures forall x :: x in RowsBelow(m, n) ==> x.id < n
  {
    if n > 0 {
      RowsBelowExact(m, n - 1);
      var prev := RowsBelow(m, n - 1);
      var r := RowsBelow(m, n);
      assert r == prev + (if n - 1 in m then [m[n - 1]] else []);
      forall x ensures x in r <==> exists k :: k in m && k < n && m[k] == x {
        if x in r && x !in prev {
          assert n - 1 in m && m[n - 1] == x;
        }
        if exists k :: k in m && k < n && m[k] == x {
          var k :| k in m && k < n && m[k] == x;
          if k < n - 1 {
            assert x in prev;
          }
        }
      }
    }
  }

  /** The same listing, stated for a whole valid table. */
  lemma AllRowsExact(s: Store)
    requires Valid(s)
    ensures forall i, j :: 0 <= i < j < |AllRows(s)| ==> AllRows(s)[i].id < AllRows(s)[j].id
    ensures forall x :: x in AllRows(s) <==> x in s.rows.Values
  {
    RowsBelowExact(s.rows, s.nextId);
    forall x ensures x in AllRows(s) <==> x in s.rows.Values {
      if x in s.rows.Values {
        var k :| k in s.rows && s.rows[k] == x;
      }
    }
  }

  /** Adding a row under `n`, above every stored key, appends it to the
      listing below `n + 1`. */
  lemma RowsBelowAppend(m: map<nat, Note>, n: nat, v: Note)
    requires forall k :: k in m ==> k < n
    ensures RowsBelow(m[n := v], n + 1) == RowsBelow(m, n) + [v]
  {
    RowsBelowAgree(m[n := v], m, n);
  }

  /** INSERT appends the new row at the end of `SELECT *`. */
  lemma InsertAppendsToListing(s: Store, title: Text, content: Text, now: Timestamp)
    requires Valid(s)
    ensures AllRows(Execute(s, InsertNote(title, content), now).0)
         == AllRows(s) + [Note(s.nextId, title, content, now)]
  {
    RowsBelowAppend(s.rows, s.nextId, Note(s.nextId, title, content, now));
  }

  /** Two tables that agree below `n` list the same rows below `n`. */
  lemma {:induction false} RowsBelowAgree(m1: map<nat, Note>, m2: map<nat, Note>, n: nat)
    requires forall k :: k < n ==> (k in m1 <==> k in m2)
    requires forall k :: k < n && k in m1 ==> m1[k] == m2[k]
    ensures RowsBelow(m1, n) == RowsBelow(m2, n)
  {
    if n > 0 {
      RowsBelowAgree(m1, m2, n - 1);
    }
  }
}

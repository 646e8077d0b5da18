/** The `students` table of database.js as immutable data: the schema's
    invariants (UNIQUE e-mail, AUTOINCREMENT ids, column defaults), the
    `run` / `queryOne` contract, schema creation and seeding. The SQL text, the
    sql.js engine and the write-back of the database image to disk are not
    modelled; a statement is a datatype and its effect a function. */
module Store {
  import opened Common

  /** What `datetime('now')` yields; it is never empty. */
  type Timestamp = s: string | s != [] witness "1970-01-01 00:00:00"

  /** The eight columns a client may write. */
  datatype Fields = Fields(
    name: string, email: string, phone: string, course: string,
    grade: string, dob: string, address: string, status: string)

  /** One row of `students`; `id` and `created_at` are set by the database. */
  datatype Student = Student(id: int, fields: Fields, createdAt: string)

  /** The table's rows in rowid order, and its `sqlite_sequence` entry: the
      largest id AUTOINCREMENT has ever handed out (0 before the first insert). */
  datatype Table = Table(rows: seq<Student>, lastId: nat)

  /** The open connection: the table and `last_insert_rowid()`. */
  datatype Db = Db(table: Table, lastInsertRowid: int)

  /** The three write statements the routes issue through `run`. */
  datatype Stmt =
    | Insert(f: Fields, now: Timestamp)   // created_at takes its DEFAULT, datetime('now')
    | UpdateById(id: int, f: Fields)
    | DeleteById(id: int)

  /** The only failure a write can meet here: "UNIQUE constraint failed: students.email". */
  datatype SqlError = UniqueEmail

  /** What `run` returns: `{ changes, lastInsertRowid }`. */
  datatype RunResult = RunResult(changes: nat, lastInsertRowid: int)

  predicate HasId(rows: seq<Student>, id: int) {
    exists i :: 0 <= i < |rows| && rows[i].id == id
  }

  predicate HasEmail(rows: seq<Student>, email: string) {
    exists i :: 0 <= i < |rows| && rows[i].fields.email == email
  }

  /** Some row other than the one with `id` holds `email`. */
  predicate EmailHeldByOther(rows: seq<Student>, id: int, email: string) {
    exists i :: 0 <= i < |rows| && rows[i].id != id && rows[i].fields.email == email
  }

  predicate AscendingIds(rows: seq<Student>) {
    forall i, j :: 0 <= i < j < |rows| ==> rows[i].id < rows[j].id
  }

  predicate DistinctEmails(rows: seq<Student>) {
    forall i, j :: 0 <= i < j < |rows| ==> rows[i].fields.email != rows[j].fields.email
  }

  /** The table invariant the schema maintains: ids are positive, unique
      (ascending in rowid order) and never above `sqlite_sequence`; no two rows
      share an e-mail; every row has a creation time. */
  predicate Valid(t: Table) {
    && (forall i :: 0 <= i < |t.rows| ==> 1 <= t.rows[i].id <= t.lastId && t.rows[i].createdAt != [])
    && AscendingIds(t.rows)
    && DistinctEmails(t.rows)
  }

  /** The largest id in the table, or 0 when it is empty. */
  function MaxId(rows: seq<Student>): (m: nat)
    ensures forall i :: 0 <= i < |rows| ==> rows[i].id <= m
  {
    if rows == [] then 0 else Max(rows[0].id, MaxId(rows[1..]))
  }

  /** The id AUTOINCREMENT counts from: the larger of `sqlite_sequence` and the
      largest id present. */
  function HighWater(t: Table): (h: nat)
    ensures h >= t.lastId
    ensures forall i :: 0 <= i < |t.rows| ==> t.rows[i].id <= h
  {
    Max(t.lastId, MaxId(t.rows))
  }

  lemma ValidHighWater(t: Table)
    requires Valid(t)
    ensures HighWater(t) == t.lastId
  {
    MaxIdBound(t.rows, t.lastId);
  }

  lemma {:induction false} MaxIdBound(rows: seq<Student>, b: nat)
    requires forall i :: 0 <= i < |rows| ==> rows[i].id <= b
    ensures MaxId(rows) <= b
  {
    if rows != [] {
      MaxIdBound(rows[1..], b);
    }
  }

  /** The number of rows whose id is `id`. */
  function CountId(rows: seq<Student>, id: int): (n: nat)
    ensures n <= |rows|
    ensures n == 0 <==> !HasId(rows, id)
  {
    if rows == [] then 0
    else
      var n := (if rows[0].id == id then 1 else 0) + CountId(rows[1..], id);
      assert HasId(rows, id) <==> rows[0].id == id || HasId(rows[1..], id) by {
        if HasId(rows[1..], id) {
          var k :| 0 <= k < |rows[1..]| && rows[1..][k].id == id;
          assert rows[k + 1].id == id;
        }
        if HasId(rows, id) && rows[0].id != id {
          var k :| 0 <= k < |rows| && rows[k].id == id;
          assert rows[1..][k - 1].id == id;
        }
      }
      n
  }

  lemma CountIdUnique(rows: seq<Student>, id: int)
    requires AscendingIds(rows)
    ensures CountId(rows, id) <= 1
  {
    if rows != [] {
      CountIdUnique(rows[1..], id);
      if rows[0].id == id {
        assert !HasId(rows[1..], id) by {
          forall k | 0 <= k < |rows[1..]| ensures rows[1..][k].id != id {
            assert rows[0].id < rows[k + 1].id;
          }
        }
      }
    }
  }

  /** `UPDATE students SET ... WHERE id = ?`: every row with `id` takes the new
      fields; its id and creation time stay. */
  function SetFields(rows: seq<Student>, id: int, f: Fields): (r: seq<Student>)
    ensures |r| == |rows|
    ensures forall i :: 0 <= i < |rows| ==> r[i].id == rows[i].id && r[i].createdAt == rows[i].createdAt
    ensures forall i :: 0 <= i < |rows| ==> r[i].fields == (if rows[i].id == id then f else rows[i].fields)
  {
    seq(|rows|, i requires 0 <= i < |rows| => if rows[i].id == id then rows[i].(fields := f) else rows[i])
  }

  /** `DELETE FROM students WHERE id = ?`: the rows without `id`, in order. */
  function RemoveId(rows: seq<Student>, id: int): (r: seq<Student>)
    ensures forall x :: x in r <==> x in rows && x.id != id
    ensures |r| == |rows| - CountId(rows, id)
  {
    if rows == [] then []
    else
      assert forall x :: x in rows <==> x == rows[0] || x in rows[1..] by {
        assert rows == [rows[0]] + rows[1..];
      }
      (if rows[0].id == id then [] else [rows[0]]) + RemoveId(rows[1..], id)
  }

  lemma AscendingTail(rows: seq<Student>)
    requires AscendingIds(rows) && rows != []
    ensures AscendingIds(rows[1..])
    ensures forall x :: x in rows[1..] ==> rows[0].id < x.id
  {
    forall x | x in rows[1..] ensures rows[0].id < x.id {
      var k :| 0 <= k < |rows[1..]| && rows[1..][k] == x;
      assert rows[k + 1] == x;
    }
  }

  lemma AscendingCons(s: Student, rest: seq<Student>)
    requires AscendingIds(rest)
    requires forall x :: x in rest ==> s.id < x.id
    ensures AscendingIds([s] + rest)
  {
    var r := [s] + rest;
    forall i, j | 0 <= i < j < |r| ensures r[i].id < r[j].id {
      assert r[j] == rest[j - 1];
      if i > 0 {
        assert r[i] == rest[i - 1];
      }
    }
  }

  /** Deleting rows keeps the survivors in rowid order. */
  lemma {:induction false} RemoveIdKeepsAscending(rows: seq<Student>, id: int)
    requires AscendingIds(rows)
    ensures AscendingIds(RemoveId(rows, id))
  {
    if rows != [] {
      AscendingTail(rows);
      RemoveIdKeepsAscending(rows[1..], id);
      var rest := RemoveId(rows[1..], id);
      if rows[0].id != id {
        assert RemoveId(rows, id) == [rows[0]] + rest;
        AscendingCons(rows[0], rest);
      } else {
        assert RemoveId(rows, id) == [] + rest;
      }
    }
  }

  lemma DistinctTail(rows: seq<Student>)
    requires DistinctEmails(rows) && rows != []
    ensures DistinctEmails(rows[1..])
    ensures forall x :: x in rows[1..] ==> rows[0].fields.email != x.fields.email
  {
    forall x | x in rows[1..] ensures rows[0].fields.email != x.fields.email {
      var k :| 0 <= k < |rows[1..]| && rows[1..][k] == x;
      assert rows[k + 1] == x;
    }
    forall i, j | 0 <= i < j < |rows[1..]| ensures rows[1..][i].fields.email != rows[1..][j].fields.email {
      assert rows[i + 1].fields.email != rows[j + 1].fields.email;
    }
  }

  lemma DistinctCons(s: Student, rest: seq<Student>)
    requires DistinctEmails(rest)
    requires forall x :: x in rest ==> s.fields.email != x.fields.email
    ensures DistinctEmails([s] + rest)
  {
    var r := [s] + rest;
    forall i, j | 0 <= i < j < |r| ensures r[i].fields.email != r[j].fields.email {
      assert r[j] == rest[j - 1];
      if i > 0 {
        assert r[i] == rest[i - 1];
      }
    }
  }

  /** Deleting rows keeps the survivors' e-mails distinct. */
  lemma {:induction false} RemoveIdKeepsDistinct(rows: seq<Student>, id: int)
    requires DistinctEmails(rows)
    ensures DistinctEmails(RemoveId(rows, id))
  {
    if rows != [] {
      DistinctTail(rows);
      RemoveIdKeepsDistinct(rows[1..], id);
      var rest := RemoveId(rows[1..], id);
      if rows[0].id != id {
        assert RemoveId(rows, id) == [rows[0]] + rest;
        DistinctCons(rows[0], rest);
      } else {
        assert RemoveId(rows, id) == [] + rest;
      }
    }
  }

  /** `INSERT INTO students (...) VALUES (...)`: fails exactly on a duplicate
      e-mail; otherwise appends one row whose id is above every id
      AUTOINCREMENT ever handed out, and records that id. */
  function RunInsert(db: Db, f: Fields, now: Timestamp): (r: Result<(Db, RunResult), SqlError>)
    ensures r.Failure? <==> HasEmail(db.table.rows, f.email)
    ensures r.Success? ==>
      var (db', rr) := r.value;
      && rr.changes == 1
      && rr.lastInsertRowid == db'.lastInsertRowid == db'.table.lastId
      && rr.lastInsertRowid > HighWater(db.table)
      && db'.table.rows == db.table.rows + [Student(rr.lastInsertRowid, f, now)]
    ensures r.Success? && Valid(db.table) ==> Valid(r.value.0.table)
  {
    var t := db.table;
    if HasEmail(t.rows, f.email) then Failure(UniqueEmail)
    else
      var id := HighWater(t) + 1;
      var t' := Table(t.rows + [Student(id, f, now)], id);
      assert Valid(t) ==> Valid(t') by {
        if Valid(t) {
          assert forall i :: 0 <= i < |t.rows| ==> t'.rows[i] == t.rows[i];
        }
      }
      Success((Db(t', id), RunResult(1, id)))
  }

  /** `UPDATE students SET ... WHERE id = ?`: fails exactly when the target row
      exists and another row holds the new e-mail; otherwise only the targeted
      rows' fields change, and `last_insert_rowid()` is untouched. */
  function RunUpdate(db: Db, id: int, f: Fields): (r: Result<(Db, RunResult), SqlError>)
    ensures r.Failure? <==> HasId(db.table.rows, id) && EmailHeldByOther(db.table.rows, id, f.email)
    ensures r.Success? ==>
      var (db', rr) := r.value;
      && rr.changes == CountId(db.table.rows, id)
      && rr.lastInsertRowid == db'.lastInsertRowid == db.lastInsertRowid
      && db'.table.lastId == db.table.lastId
      && |db'.table.rows| == |db.table.rows|
      && (forall i :: 0 <= i < |db.table.rows| ==>
            && db'.table.rows[i].id == db.table.rows[i].id
            && db'.table.rows[i].createdAt == db.table.rows[i].createdAt
            && db'.table.rows[i].fields == (if db.table.rows[i].id == id then f else db.table.rows[i].fields))
    ensures r.Success? && Valid(db.table) ==> Valid(r.value.0.table)
  {
    var t := db.table;
    if HasId(t.rows, id) && EmailHeldByOther(t.rows, id, f.email) then Failure(UniqueEmail)
    else
      var t' := Table(SetFields(t.rows, id, f), t.lastId);
      assert Valid(t) ==> Valid(t') by {
        if Valid(t) {
          forall i, j | 0 <= i < j < |t'.rows|
            ensures t'.rows[i].fields.email != t'.rows[j].fields.email
          {
            if t.rows[i].id == id {
              assert t.rows[j].id != id;
            } else if t.rows[j].id == id {
              assert t.rows[i].id != id;
            }
          }
        }
      }
      Success((Db(t', db.lastInsertRowid), RunResult(CountId(t.rows, id), db.lastInsertRowid)))
  }

  /** `DELETE FROM students WHERE id = ?`: never fails; removes exactly the
      rows with the id and leaves `sqlite_sequence` where it was, so a deleted
      id is never handed out again. */
  function RunDelete(db: Db, id: int): (r: Result<(Db, RunResult), SqlError>)
    ensures r.Success?
    ensures
      var (db', rr) := r.value;
      && rr.changes == CountId(db.table.rows, id)
      && rr.lastInsertRowid == db'.lastInsertRowid == db.lastInsertRowid
      && db'.table.lastId == db.table.lastId
      && (forall x :: x in db'.table.rows <==> x in db.table.rows && x.id != id)
      && |db'.table.rows| == |db.table.rows| - rr.changes
    ensures Valid(db.table) ==> Valid(r.value.0.table)
  {
    var t := db.table;
    var t' := Table(RemoveId(t.rows, id), t.lastId);
    assert Valid(t) ==> Valid(t') by {
      if Valid(t) {
        RemoveIdKeepsAscending(t.rows, id);
        RemoveIdKeepsDistinct(t.rows, id);
        forall i | 0 <= i < |t'.rows| ensures 1 <= t'.rows[i].id <= t'.lastId && t'.rows[i].createdAt != [] {
          assert t'.rows[i] in t.rows;
        }
      }
    }
    Success((Db(t', db.lastInsertRowid), RunResult(CountId(t.rows, id), db.lastInsertRowid)))
  }

  /** `run(sql, params)`: executes one write statement, reads
      `getRowsModified()` and `last_insert_rowid()`. A statement that breaks
      the UNIQUE e-mail constraint throws and writes nothing. */
  function Run(db: Db, stmt: Stmt): (r: Result<(Db, RunResult), SqlError>)
    ensures r.Failure? ==> stmt.Insert? || stmt.UpdateById?
    ensures r.Success? && Valid(db.table) ==> Valid(r.value.0.table)
    ensures r.Success? ==> r.value.1.lastInsertRowid == r.value.0.lastInsertRowid
    ensures r.Success? ==> r.value.0.table.lastId >= db.table.lastId
  {
    match stmt
    case Insert(f, now) => RunInsert(db, f, now)
    case UpdateById(id, f) => RunUpdate(db, id, f)
    case DeleteById(id) => RunDelete(db, id)
  }

  /** `queryOne`: the first row `queryAll` returns, or `null` when there is none. */
  function QueryOne<T>(rows: seq<T>): (r: Option<T>)
    ensures r.Some? <==> |rows| > 0
    ensures r.Some? ==> r.value == rows[0]
  {
    if |rows| > 0 then Some(rows[0]) else None
  }

  /** `SELECT * FROM students WHERE id = ?`: the matching rows in rowid order. */
  function SelectById(rows: seq<Student>, id: int): (r: seq<Student>)
    ensures forall x :: x in r <==> x in rows && x.id == id
    ensures |r| == CountId(rows, id)
  {
    if rows == [] then []
    else
      assert forall x :: x in rows <==> x == rows[0] || x in rows[1..] by {
        assert rows == [rows[0]] + rows[1..];
      }
      (if rows[0].id == id then [rows[0]] else []) + SelectById(rows[1..], id)
  }

  /** `queryOne('SELECT * FROM students WHERE id = ?', [id])`: present exactly
      when some row has the id, and then (ids being unique) it is that row. */
  function FindById(t: Table, id: int): (r: Option<Student>)
    ensures r.Some? <==> HasId(t.rows, id)
    ensures r.Some? ==> r.value in t.rows && r.value.id == id
    ensures r.Some? && AscendingIds(t.rows) ==> forall x :: x in t.rows && x.id == id ==> x == r.value
  {
    var sel := SelectById(t.rows, id);
    var r := QueryOne(sel);
    assert r.Some? ==> r.value in sel;
    assert r.Some? && AscendingIds(t.rows) ==> forall x :: x in t.rows && x.id == id ==> x == r.value by {
      if r.Some? && AscendingIds(t.rows) {
        forall x | x in t.rows && x.id == id ensures x == r.value {
          var i :| 0 <= i < |t.rows| && t.rows[i] == x;
          var j :| 0 <= j < |t.rows| && t.rows[j] == r.value;
          assert i == j;
        }
      }
    }
    r
  }

  /** A row appended with an id above every other is what a lookup of that id
      returns. */
  lemma FindAppended(t: Table, t': Table, s: Student)
    requires forall i :: 0 <= i < |t.rows| ==> t.rows[i].id < s.id
    requires t'.rows == t.rows + [s]
    ensures FindById(t', s.id) == Some(s)
  {
    assert t'.rows[|t.rows|] == s;
    var r := FindById(t', s.id).value;
    var j :| 0 <= j < |t'.rows| && t'.rows[j] == r;
    assert j == |t.rows|;
  }

  /** After `SetFields`, a lookup of the id finds a row carrying the new fields. */
  lemma FindUpdated(rows: seq<Student>, t': Table, id: int, f: Fields)
    requires HasId(rows, id)
    requires |t'.rows| == |rows|
    requires forall i :: 0 <= i < |rows| ==>
      t'.rows[i].id == rows[i].id && t'.rows[i].fields == (if rows[i].id == id then f else rows[i].fields)
    ensures var r := FindById(t', id);
      r.Some? && r.value.fields == f && r.value.id == id
  {
    var rows' := t'.rows;
    var k :| 0 <= k < |rows| && rows[k].id == id;
    assert rows'[k].id == id;
    var r := FindById(t', id).value;
    var j :| 0 <= j < |rows'| && rows'[j] == r;
    assert rows[j].id == id;
  }

  /** `CREATE TABLE IF NOT EXISTS students (...)` applied to the loaded image:
      an existing table is kept with its rows, a missing one starts empty. */
  function CreateSchema(image: Option<Table>): (t: Table)
    ensures image.Some? ==> t == image.value
    ensures image.None? ==> t.rows == [] && t.lastId == 0
  {
    image.GetOr(Table([], 0))
  }

  /** Running the schema statement again changes nothing. */
  lemma CreateSchemaIdempotent(image: Option<Table>)
    ensures CreateSchema(Some(CreateSchema(image))) == CreateSchema(image)
  {
  }

  /** The five sample students of `seedIfEmpty`. */
  const Samples: seq<Fields> := [
    Fields("Alice Johnson",  "alice@example.com", "555-0101", "Computer Science", "A", "2002-04-12", "123 Maple St", "Active"),
    Fields("Bob Martinez",   "bob@example.com",   "555-0102", "Mathematics",      "B", "2001-09-05", "456 Oak Ave",  "Active"),
    Fields("Carol Williams", "carol@example.com", "555-0103", "Physics",          "A", "2003-01-22", "789 Pine Rd",  "Active"),
    Fields("David Brown",    "david@example.com", "555-0104", "Chemistry",        "C", "2002-07-18", "321 Elm Blvd", "Inactive"),
    Fields("Eve Davis",      "eve@example.com",   "555-0105", "Biology",          "B", "2001-11-30", "654 Cedar Ln", "Active")
  ]

  predicate DistinctFieldEmails(fs: seq<Fields>) {
    forall i, j :: 0 <= i < j < |fs| ==> fs[i].email != fs[j].email
  }

  lemma SampleEmailsDistinct()
    ensures DistinctFieldEmails(Samples)
  {
    forall i, j | 0 <= i < j < |Samples| ensures Samples[i].email != Samples[j].email {
      assert Samples[i].email[0] != Samples[j].email[0];
    }
  }

  /** The `run(INSERT ...)` calls of `seedIfEmpty`, one per element of `fs`,
      stopping at the first that throws. Each statement reads the clock for its
      own `created_at` default, so the k-th insert is stamped `stamps[k]`. */
  function InsertAll(db: Db, fs: seq<Fields>, stamps: seq<Timestamp>): Result<Db, SqlError>
    requires |stamps| == |fs|
    decreases |fs|
  {
    if fs == [] then Success(db)
    else
      match Run(db, Insert(fs[0], stamps[0]))
      case Failure(e) => Failure(e)
      case Success((db', _)) => InsertAll(db', fs[1..], stamps[1..])
  }

  /** The first insert of a fresh batch succeeds with the next id, and the
      rest of the batch is still fresh afterwards. */
  lemma InsertFirstFresh(db: Db, fs: seq<Fields>, now: Timestamp)
    requires fs != [] && DistinctFieldEmails(fs)
    requires forall k :: 0 <= k < |fs| ==> !HasEmail(db.table.rows, fs[k].email)
    ensures Run(db, Insert(fs[0], now)).Success?
    ensures var t' := Run(db, Insert(fs[0], now)).value.0.table;
      && t'.rows == db.table.rows + [Student(HighWater(db.table) + 1, fs[0], now)]
      && t'.lastId == HighWater(t') == HighWater(db.table) + 1
      && DistinctFieldEmails(fs[1..])
      && forall k :: 0 <= k < |fs[1..]| ==> !HasEmail(t'.rows, fs[1..][k].email)
  {
    var rows := db.table.rows;
    var t' := Run(db, Insert(fs[0], now)).value.0.table;
    assert t'.rows == rows + [Student(HighWater(db.table) + 1, fs[0], now)];
    MaxIdBound(t'.rows, t'.lastId);
    forall k | 0 <= k < |fs[1..]| ensures !HasEmail(t'.rows, fs[1..][k].email) {
      assert fs[1..][k] == fs[k + 1];
      assert fs[0].email != fs[k + 1].email;
      forall i | 0 <= i < |t'.rows| ensures t'.rows[i].fields.email != fs[k + 1].email {
        if i < |rows| {
          assert t'.rows[i] == rows[i];
        }
      }
    }
  }

  /** The rows a batch of inserts appends: the fields in order, with
      consecutive ids from `id`, each with its own time stamp. */
  function Appended(id: int, fs: seq<Fields>, stamps: seq<Timestamp>): (r: seq<Student>)
    requires |stamps| == |fs|
    ensures |r| == |fs|
    decreases |fs|
  {
    if fs == [] then [] else [Student(id, fs[0], stamps[0])] + Appended(id + 1, fs[1..], stamps[1..])
  }

  /** The k-th appended row has the k-th fields, id `id + k` and the k-th stamp. */
  lemma {:induction false} AppendedAt(id: int, fs: seq<Fields>, stamps: seq<Timestamp>)
    requires |stamps| == |fs|
    ensures forall k :: 0 <= k < |fs| ==> Appended(id, fs, stamps)[k] == Student(id + k, fs[k], stamps[k])
    decreases |fs|
  {
    if fs != [] {
      AppendedAt(id + 1, fs[1..], stamps[1..]);
      forall k | 1 <= k < |fs| ensures Appended(id, fs, stamps)[k] == Student(id + k, fs[k], stamps[k]) {
        assert fs[1..][k - 1] == fs[k];
        assert stamps[1..][k - 1] == stamps[k];
      }
    }
  }

  /** The first insert of a fresh batch succeeds, and the rest of the batch
      runs on the table it leaves, still fresh. */
  lemma InsertAllFirstStep(db: Db, fs: seq<Fields>, stamps: seq<Timestamp>)
    requires fs != [] && |stamps| == |fs| && DistinctFieldEmails(fs)
    requires forall k :: 0 <= k < |fs| ==> !HasEmail(db.table.rows, fs[k].email)
    ensures var db' := Run(db, Insert(fs[0], stamps[0])).value.0;
      && InsertAll(db, fs, stamps) == InsertAll(db', fs[1..], stamps[1..])
      && db'.table.rows == db.table.rows + [Student(HighWater(db.table) + 1, fs[0], stamps[0])]
      && HighWater(db'.table) == db'.table.lastId == HighWater(db.table) + 1
      && DistinctFieldEmails(fs[1..])
      && forall k :: 0 <= k < |fs[1..]| ==> !HasEmail(db'.table.rows, fs[1..][k].email)
  {
    InsertFirstFresh(db, fs, stamps[0]);
  }

  /** Inserting rows whose e-mails are new and pairwise distinct never fails:
      they are appended in order with consecutive ids above the high-water mark. */
  lemma {:induction false} InsertAllFresh(db: Db, fs: seq<Fields>, stamps: seq<Timestamp>)
    requires |stamps| == |fs| && DistinctFieldEmails(fs)
    requires forall k :: 0 <= k < |fs| ==> !HasEmail(db.table.rows, fs[k].email)
    ensures InsertAll(db, fs, stamps).Success?
    ensures var t' := InsertAll(db, fs, stamps).value.table;
      && t'.rows == db.table.rows + Appended(HighWater(db.table) + 1, fs, stamps)
      && (fs != [] ==> t'.lastId == HighWater(db.table) + |fs|)
    decreases |fs|
  {
    if fs != [] {
      InsertAllFirstStep(db, fs, stamps);
      var db' := Run(db, Insert(fs[0], stamps[0])).value.0;
      InsertAllFresh(db', fs[1..], stamps[1..]);
      var h := HighWater(db.table);
      assert HighWater(db'.table) + 1 == h + 2;
      if fs[1..] == [] {
        assert InsertAll(db', fs[1..], stamps[1..]) == Success(db');
      }
      AppendedStep(db.table.rows, h, fs, stamps, db'.table, InsertAll(db, fs, stamps).value.table);
    } else {
      assert Appended(HighWater(db.table) + 1, fs, stamps) == [];
      assert db.table.rows + [] == db.table.rows;
    }
  }

  /** The inductive step of `InsertAllFresh`, on tables alone: `mid` is the
      table after the first insert, `t'` the one after the rest. */
  lemma AppendedStep(rows: seq<Student>, h: int, fs: seq<Fields>, stamps: seq<Timestamp>, mid: Table, t': Table)
    requires fs != [] && |stamps| == |fs|
    requires mid.rows == rows + [Student(h + 1, fs[0], stamps[0])] && mid.lastId == h + 1
    requires t'.rows == mid.rows + Appended(h + 2, fs[1..], stamps[1..])
    requires fs[1..] != [] ==> t'.lastId == h + 1 + |fs[1..]|
    requires fs[1..] == [] ==> t' == mid
    ensures t'.rows == rows + Appended(h + 1, fs, stamps)
    ensures t'.lastId == h + |fs|
  {
    var first, tail := Student(h + 1, fs[0], stamps[0]), Appended(h + 2, fs[1..], stamps[1..]);
    assert Appended(h + 1, fs, stamps) == [first] + tail;
    ConcatAssoc(rows, [first], tail);
  }

  /** A batch of inserts that succeeds keeps the table invariant. */
  lemma {:induction false} InsertAllKeepsValid(db: Db, fs: seq<Fields>, stamps: seq<Timestamp>)
    requires |stamps| == |fs| && Valid(db.table) && InsertAll(db, fs, stamps).Success?
    ensures Valid(InsertAll(db, fs, stamps).value.table)
    decreases |fs|
  {
    if fs != [] {
      var db' := Run(db, Insert(fs[0], stamps[0])).value.0;
      assert InsertAll(db, fs, stamps) == InsertAll(db', fs[1..], stamps[1..]);
      InsertAllKeepsValid(db', fs[1..], stamps[1..]);
    }
  }

  /** A fresh batch run on an empty table leaves exactly the batch, in order,
      numbered upwards from the high-water mark. */
  lemma InsertAllIntoEmpty(db: Db, fs: seq<Fields>, stamps: seq<Timestamp>)
    requires |db.table.rows| == 0 && |stamps| == |fs| && DistinctFieldEmails(fs)
    ensures InsertAll(db, fs, stamps).Success?
    ensures var rows := InsertAll(db, fs, stamps).value.table.rows;
      && |rows| == |fs|
      && forall k :: 0 <= k < |fs| ==> rows[k] == Student(HighWater(db.table) + 1 + k, fs[k], stamps[k])
    ensures Valid(db.table) ==> Valid(InsertAll(db, fs, stamps).value.table)
  {
    InsertAllFresh(db, fs, stamps);
    AppendedAt(HighWater(db.table) + 1, fs, stamps);
    assert db.table.rows + Appended(HighWater(db.table) + 1, fs, stamps) == Appended(HighWater(db.table) + 1, fs, stamps);
    if Valid(db.table) {
      InsertAllKeepsValid(db, fs, stamps);
    }
  }

  /** `seedIfEmpty`: an empty table receives exactly the five samples, in
      order, with the next five ids, the k-th stamped with the clock reading
      of its own insert; a non-empty table is left as it is. */
  function SeedIfEmpty(db: Db, stamps: seq<Timestamp>): (r: Result<Db, SqlError>)
    requires |stamps| == |Samples|
    ensures |db.table.rows| > 0 ==> r == Success(db)
    ensures |db.table.rows| == 0 ==>
      && r.Success?
      && |r.value.table.rows| == |Samples|
      && (forall k :: 0 <= k < |Samples| ==> r.value.table.rows[k] == Student(HighWater(db.table) + 1 + k, Samples[k], stamps[k]))
    ensures r.Success? && Valid(db.table) ==> Valid(r.value.table)
  {
    if |db.table.rows| > 0 then Success(db)
    else
      SampleEmailsDistinct();
      InsertAllIntoEmpty(db, Samples, stamps);
      InsertAll(db, Samples, stamps)
  }

  /** `initDB`: open the stored image (or a fresh database), create the schema
      if missing, seed if empty. `stamps` are the clock readings the five
      seeding inserts would take. Startup never fails, always leaves at least
      one row, keeps a non-empty stored table as it is, and seeds exactly the
      five samples into a fresh database. */
  function InitDb(image: Option<Table>, stamps: seq<Timestamp>): (r: Result<Db, SqlError>)
    requires |stamps| == |Samples|
    ensures r.Success?
    ensures |r.value.table.rows| > 0
    ensures image.Some? && |image.value.rows| > 0 ==> r.value.table == image.value
    ensures image.None? ==> |r.value.table.rows| == 5 && forall k :: 0 <= k < 5 ==> r.value.table.rows[k] == Student(k + 1, Samples[k], stamps[k])
    ensures (image.None? || Valid(image.value)) ==> Valid(r.value.table)
  {
    var db := Db(CreateSchema(image), 0);
    assert image.None? ==> HighWater(db.table) == 0 && Valid(db.table);
    assert |Samples| == 5;
    SeedIfEmpty(db, stamps)
  }

  /** Initialising twice, the second time from the image the first left behind,
      gives the same table: the second run neither recreates nor re-seeds. */
  lemma InitIdempotent(image: Option<Table>, first: seq<Timestamp>, second: seq<Timestamp>)
    requires |first| == |second| == |Samples|
    ensures InitDb(Some(InitDb(image, first).value.table), second).value.table == InitDb(image, first).value.table
  {
  }
}

/** The single-student routes of routes/students.js: `validate`, `GET /:id`,
    `POST /`, `PUT /:id` and `DELETE /:id`, each a function from the database
    state and the request to the response and the next state. */
module StudentRoutes {
  import opened Common
  import opened Text
  import opened Http
  import opened Store

  /** The JSON request body: each field a string, or absent (`undefined`). */
  datatype Body = Body(
    name: Option<string>, email: Option<string>, phone: Option<string>,
    course: Option<string>, grade: Option<string>, dob: Option<string>,
    address: Option<string>, status: Option<string>)

  const NameRequired := "Name is required"
  const EmailRequired := "Email is required"
  const CourseRequired := "Course is required"
  const InvalidEmail := "Invalid email format"
  const StudentNotFound := "Student not found"
  const EmailExists := "Email already exists"
  const StudentDeleted := "Student deleted successfully"

  /** `!v || v.trim() === ''`. */
  predicate Blank(v: Option<string>) {
    v.None? || Trim(v.value) == ""
  }

  /** The position of a validation message in the order `validate` checks. */
  function Rank(m: string): nat {
    if m == NameRequired then 0
    else if m == EmailRequired then 1
    else if m == CourseRequired then 2
    else if m == InvalidEmail then 3
    else 4
  }

  /** The messages are in check order, each from a check before the `k`-th. */
  predicate RankedBelow(errs: seq<string>, k: nat) {
    && (forall i :: 0 <= i < |errs| ==> Rank(errs[i]) < k)
    && (forall i, j :: 0 <= i < j < |errs| ==> Rank(errs[i]) < Rank(errs[j]))
  }

  /** Appending the message of a later check keeps the messages in order. */
  lemma PushRanked(errs: seq<string>, k: nat, failed: bool, m: string)
    requires RankedBelow(errs, Rank(m)) && Rank(m) < k
    ensures RankedBelow(errs + (if failed then [m] else []), k)
    ensures m in errs + (if failed then [m] else []) <==> failed
  {
    if !failed {
      assert errs + [] == errs;
    }
    assert forall i :: 0 <= i < |errs| ==> errs[i] != m;
  }

  lemma MessageRanks()
    ensures Rank(NameRequired) == 0 && Rank(EmailRequired) == 1
    ensures Rank(CourseRequired) == 2 && Rank(InvalidEmail) == 3
  {
  }

  /** Whether `validate` rejects a blank field. */
  lemma BlankIsAllSpace(v: Option<string>)
    ensures Blank(v) <==> v.None? || AllSpace(v.value)
  {
  }

  /** `validate(body)`: one message per failed check, in the order of the
      checks. A missing or whitespace-only field is required; a present,
      non-empty e-mail must also match `^[^\s@]+@[^\s@]+\.[^\s@]+$`. */
  function Validate(b: Body): (errs: seq<string>)
    ensures NameRequired in errs <==> b.name.None? || AllSpace(b.name.value)
    ensures EmailRequired in errs <==> b.email.None? || AllSpace(b.email.value)
    ensures CourseRequired in errs <==> b.course.None? || AllSpace(b.course.value)
    ensures InvalidEmail in errs <==> b.email.Some? && b.email.value != "" && !EmailPattern(b.email.value)
    ensures RankedBelow(errs, 4)
  {
    var badEmail := b.email.Some? && b.email.value != "" && !EmailPattern(b.email.value);
    var e0: seq<string> := [];
    var e1 := e0 + (if Blank(b.name) then [NameRequired] else []);
    var e2 := e1 + (if Blank(b.email) then [EmailRequired] else []);
    var e3 := e2 + (if Blank(b.course) then [CourseRequired] else []);
    var e4 := e3 + (if badEmail then [InvalidEmail] else []);
    MessageRanks();
    BlankIsAllSpace(b.name);
    BlankIsAllSpace(b.email);
    BlankIsAllSpace(b.course);
    PushRanked(e0, 1, Blank(b.name), NameRequired);
    PushRanked(e1, 2, Blank(b.email), EmailRequired);
    PushRanked(e2, 3, Blank(b.course), CourseRequired);
    PushRanked(e3, 4, badEmail, InvalidEmail);
    assert NameRequired in e4 <==> NameRequired in e1;
    assert EmailRequired in e4 <==> EmailRequired in e2;
    assert CourseRequired in e4 <==> CourseRequired in e3;
    e4
  }

  /** A body passes validation exactly when name, e-mail and course are
      present and not blank and the e-mail matches the pattern; the e-mail is
      then already trimmed. */
  lemma ValidateAccepts(b: Body)
    ensures Validate(b) == [] <==>
      && b.name.Some? && !AllSpace(b.name.value)
      && b.course.Some? && !AllSpace(b.course.value)
      && b.email.Some? && EmailPattern(b.email.value)
    ensures Validate(b) == [] ==> Trim(b.email.value) == b.email.value
  {
    ValidateEmptyIff(b);
    EmailAccepted(b.email);
    if b.email.Some? && EmailPattern(b.email.value) {
      EmailPatternShape(b.email.value);
    }
  }

  /** Only the four validation messages are ever reported. */
  lemma ValidateEmptyIff(b: Body)
    ensures var errs := Validate(b);
      errs == [] <==>
        NameRequired !in errs && EmailRequired !in errs && CourseRequired !in errs && InvalidEmail !in errs
  {
    var errs := Validate(b);
    if errs != [] {
      MessageRanks();
      assert Rank(errs[0]) < 4 && errs[0] in errs;
    }
  }

  /** The e-mail passes both of its checks exactly when it is present and
      matches the pattern. */
  lemma EmailAccepted(v: Option<string>)
    ensures (!(v.None? || AllSpace(v.value)) && !(v.Some? && v.value != "" && !EmailPattern(v.value)))
      <==> v.Some? && EmailPattern(v.value)
  {
    if v.Some? {
      if AllSpace(v.value) {
        BlankIsNotEmail(v.value);
      }
      assert AllSpace("");
    }
  }

  /** A whitespace-only e-mail is reported both as missing and as malformed. */
  lemma BlankEmailTwoErrors(b: Body)
    requires b.email.Some? && b.email.value != "" && AllSpace(b.email.value)
    ensures EmailRequired in Validate(b) && InvalidEmail in Validate(b)
  {
    BlankIsNotEmail(b.email.value);
  }

  /** The destructuring defaults and trimming of a validated body: `dob` and
      `status` are stored as sent, `status` defaulting to `Active`. */
  function ToFields(b: Body): (f: Fields)
    requires b.name.Some? && b.email.Some? && b.course.Some?
    ensures f.name == Trim(b.name.value) && f.email == Trim(b.email.value)
    ensures f.course == Trim(b.course.value)
    ensures f.phone == Trim(b.phone.GetOr("")) && f.grade == Trim(b.grade.GetOr(""))
    ensures f.address == Trim(b.address.GetOr(""))
    ensures f.dob == b.dob.GetOr("") && f.status == b.status.GetOr("Active")
  {
    Fields(
      Trim(b.name.value), Trim(b.email.value), Trim(b.phone.GetOr("")),
      Trim(b.course.value), Trim(b.grade.GetOr("")), b.dob.GetOr(""),
      Trim(b.address.GetOr("")), b.status.GetOr("Active"))
  }

  /** `GET /:id`: the row, or 404. */
  function Get(t: Table, id: int): (r: Response<Student>)
    ensures r.Ok? <==> HasId(t.rows, id)
    ensures r.Ok? ==> r.value in t.rows && r.value.id == id
    ensures !r.Ok? ==> r == NotFound(StudentNotFound)
  {
    match FindById(t, id)
    case Some(s) => Ok(s)
    case None => NotFound(StudentNotFound)
  }

  /** The `try { run(INSERT ...); queryOne(...) } catch` block of `POST /`:
      409 on the UNIQUE e-mail violation, otherwise 201 with the stored row. */
  function InsertStudent(db: Db, f: Fields, now: Timestamp): (r: Reply<Student, Db>)
    ensures r.response.Conflict? || r.response.Created?
    ensures r.response.Conflict? <==> HasEmail(db.table.rows, f.email)
    ensures r.response.Conflict? ==> r == Reply(Conflict(EmailExists), db)
    ensures r.response.Created? ==>
      && r.response.value == Student(r.state.table.lastId, f, now)
      && r.state.table.rows == db.table.rows + [r.response.value]
      && r.state.table.lastId > HighWater(db.table)
    ensures Valid(db.table) ==> Valid(r.state.table)
  {
    match Run(db, Insert(f, now))
    case Failure(_) => Reply(Conflict(EmailExists), db)
    case Success((db', rr)) =>
      var s := Student(rr.lastInsertRowid, f, now);
      FindAppended(db.table, db'.table, s);
      Reply(Created(FindById(db'.table, rr.lastInsertRowid).value), db')
  }

  /** `POST /`: 400 with the messages when validation fails; 409 when another
      student holds the e-mail; otherwise 201 with the stored row, whose id is
      above every id the table has handed out. */
  function Create(db: Db, b: Body, now: Timestamp): (r: Reply<Student, Db>)
    ensures r.response.Invalid? || r.response.Conflict? || r.response.Created?
    ensures r.response.Invalid? <==> Validate(b) != []
    ensures Validate(b) != [] ==> r == Reply(Invalid(Validate(b)), db)
    ensures Validate(b) == [] ==> (r.response.Conflict? <==> HasEmail(db.table.rows, b.email.value))
    ensures Validate(b) == [] && !HasEmail(db.table.rows, b.email.value) ==> r.response.Created?
    ensures r.response.Conflict? ==> r == Reply(Conflict(EmailExists), db)
    ensures r.response.Created? ==>
      && Validate(b) == []
      && r.response.value == Student(r.state.table.lastId, ToFields(b), now)
      && r.response.value.fields.email == b.email.value
      && r.state.table.rows == db.table.rows + [r.response.value]
      && r.state.table.lastId > HighWater(db.table)
    ensures Valid(db.table) ==> Valid(r.state.table)
  {
    var errs := Validate(b);
    if errs != [] then
      Reply(Invalid(errs), db)
    else
      ValidateAccepts(b);
      InsertStudent(db, ToFields(b), now)
  }

  /** The `try { run(UPDATE ...); queryOne(...) } catch` block of `PUT /:id`,
      reached once the row is known to exist: 409 on the UNIQUE e-mail
      violation, otherwise 200 with the updated row. */
  function UpdateStudent(db: Db, id: int, f: Fields): (r: Reply<Student, Db>)
    requires HasId(db.table.rows, id)
    ensures r.response.Conflict? || r.response.Ok?
    ensures r.response.Conflict? <==> EmailHeldByOther(db.table.rows, id, f.email)
    ensures r.response.Conflict? ==> r == Reply(Conflict(EmailExists), db)
    ensures r.response.Ok? ==>
      && r.response.value in r.state.table.rows
      && r.response.value.id == id && r.response.value.fields == f
      && r.state.table.lastId == db.table.lastId
      && |r.state.table.rows| == |db.table.rows|
      && (forall i :: 0 <= i < |db.table.rows| ==>
            && r.state.table.rows[i].id == db.table.rows[i].id
            && r.state.table.rows[i].createdAt == db.table.rows[i].createdAt
            && r.state.table.rows[i].fields == (if db.table.rows[i].id == id then f else db.table.rows[i].fields))
    ensures Valid(db.table) ==> Valid(r.state.table)
  {
    match Run(db, UpdateById(id, f))
    case Failure(_) => Reply(Conflict(EmailExists), db)
    case Success((db', _)) =>
      FindUpdated(db.table.rows, db'.table, id, f);
      Reply(Ok(FindById(db'.table, id).value), db')
  }

  /** `PUT /:id`: 404 when no student has the id, else 400 when validation
      fails, else 409 when another student holds the e-mail, else 200 with the
      updated row. Only that row's fields change; its id and creation time
      stay. */
  function Update(db: Db, id: int, b: Body): (r: Reply<Student, Db>)
    ensures r.response.NotFound? || r.response.Invalid? || r.response.Conflict? || r.response.Ok?
    ensures r.response.NotFound? <==> !HasId(db.table.rows, id)
    ensures r.response.Invalid? <==> HasId(db.table.rows, id) && Validate(b) != []
    ensures !HasId(db.table.rows, id) ==> r == Reply(NotFound(StudentNotFound), db)
    ensures HasId(db.table.rows, id) && Validate(b) != [] ==> r == Reply(Invalid(Validate(b)), db)
    ensures HasId(db.table.rows, id) && Validate(b) == [] && !EmailHeldByOther(db.table.rows, id, b.email.value) ==>
      r.response.Ok?
    ensures HasId(db.table.rows, id) && Validate(b) == [] ==>
      && (r.response.Conflict? <==> EmailHeldByOther(db.table.rows, id, b.email.value))
      && (r.response.Ok? ==> r.response.value.id == id && r.response.value.fields == ToFields(b))
      && (r.response.Ok? ==>
            && |r.state.table.rows| == |db.table.rows|
            && forall i :: 0 <= i < |db.table.rows| ==>
                 && r.state.table.rows[i].id == db.table.rows[i].id
                 && r.state.table.rows[i].createdAt == db.table.rows[i].createdAt
                 && r.state.table.rows[i].fields == (if db.table.rows[i].id == id then ToFields(b) else db.table.rows[i].fields))
    ensures r.response.Conflict? ==> r == Reply(Conflict(EmailExists), db)
    ensures r.response.Ok? ==> HasId(db.table.rows, id) && Validate(b) == [] && r.state.table.lastId == db.table.lastId
    ensures Valid(db.table) ==> Valid(r.state.table)
  {
    if FindById(db.table, id).None? then
      Reply(NotFound(StudentNotFound), db)
    else
      var errs := Validate(b);
      if errs != [] then
        Reply(Invalid(errs), db)
      else
        ValidateAccepts(b);
        UpdateStudent(db, id, ToFields(b))
  }

  /** `DELETE /:id`: 404 when no student has the id, otherwise 200 with every
      other row kept and `sqlite_sequence` untouched, so the id is never
      handed out again. */
  function Delete(db: Db, id: int): (r: Reply<string, Db>)
    ensures !HasId(db.table.rows, id) ==> r == Reply(NotFound(StudentNotFound), db)
    ensures HasId(db.table.rows, id) ==>
      && r.response == Ok(StudentDeleted)
      && (forall x :: x in r.state.table.rows <==> x in db.table.rows && x.id != id)
      && r.state.table.lastId == db.table.lastId
    ensures HasId(db.table.rows, id) && Valid(db.table) ==> |r.state.table.rows| == |db.table.rows| - 1
    ensures Valid(db.table) ==> Valid(r.state.table)
  {
    if FindById(db.table, id).None? then
      Reply(NotFound(StudentNotFound), db)
    else
      var (db', _) := Run(db, DeleteById(id)).value;
      assert Valid(db.table) ==> CountId(db.table.rows, id) <= 1 by {
        if Valid(db.table) {
          CountIdUnique(db.table.rows, id);
        }
      }
      Reply(Ok(StudentDeleted), db')
  }

  /** A write request to the routes above. */
  datatype Request =
    | Post(body: Body, now: Timestamp)
    | Put(id: int, body: Body)
    | Remove(id: int)

  /** The state after one request, and the id of the student it created. */
  function Handle(db: Db, req: Request): (r: (Db, Option<int>))
    ensures r.0.table.lastId >= db.table.lastId
    ensures r.1.Some? ==> r.1.value == r.0.table.lastId > db.table.lastId
    ensures Valid(db.table) ==> Valid(r.0.table)
  {
    match req
    case Post(b, now) =>
      var r := Create(db, b, now);
      (r.state, if r.response.Created? then Some(r.response.value.id) else None)
    case Put(id, b) => (Update(db, id, b).state, None)
    case Remove(id) => (Delete(db, id).state, None)
  }

  /** The state after a sequence of requests, and the ids created on the way. */
  function Serve(db: Db, reqs: seq<Request>): (Db, seq<int>)
    decreases |reqs|
  {
    if reqs == [] then (db, [])
    else
      var (mid, ids) := Serve(db, reqs[..|reqs| - 1]);
      var (last, made) := Handle(mid, reqs[|reqs| - 1]);
      (last, if made.Some? then ids + [made.value] else ids)
  }

  /** From a valid table, any sequence of requests keeps the table valid and
      creates students with strictly increasing ids, each above every id that
      existed before it: a deleted student's id is never reused. */
  lemma {:induction false} IdsNeverReused(db: Db, reqs: seq<Request>)
    requires Valid(db.table)
    ensures var (db', ids) := Serve(db, reqs);
      && Valid(db'.table)
      && db'.table.lastId >= db.table.lastId
      && (forall k :: 0 <= k < |ids| ==> db.table.lastId < ids[k] <= db'.table.lastId)
      && (forall k, m :: 0 <= k < m < |ids| ==> ids[k] < ids[m])
    decreases |reqs|
  {
    if reqs != [] {
      var (mid, ids) := Serve(db, reqs[..|reqs| - 1]);
      IdsNeverReused(db, reqs[..|reqs| - 1]);
      var (last, made) := Handle(mid, reqs[|reqs| - 1]);
    }
  }
}

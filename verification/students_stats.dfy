/** `GET /api/students/stats` of routes/students.js: the row counts, the
    per-course tally ordered by count, and the per-grade tally ordered by
    grade. */
module StudentStats {
  import opened Ordering
  import opened Store

  /** One row of a `GROUP BY` result: a value and `COUNT(*) AS cnt`. */
  datatype Tally = Tally(name: string, cnt: nat)

  /** The JSON body `{ total, active, inactive, courses, grades }`. */
  datatype Stats = Stats(total: nat, active: nat, inactive: nat, courses: seq<Tally>, grades: seq<Tally>)

  /** The `status` column, in rowid order. */
  function Statuses(rows: seq<Student>): (r: seq<string>)
    ensures |r| == |rows| && forall i :: 0 <= i < |rows| ==> r[i] == rows[i].fields.status
  {
    seq(|rows|, i requires 0 <= i < |rows| => rows[i].fields.status)
  }

  lemma StatusesCons(rows: seq<Student>)
    requires rows != []
    ensures Statuses(rows) == [rows[0].fields.status] + Statuses(rows[1..])
  {
    assert forall i :: 0 < i < |rows| ==> rows[i] == rows[1..][i - 1];
  }

  /** `SELECT COUNT(*) FROM students WHERE status = s`: the number of rows
      whose status is exactly `s`. */
  function CountStatus(rows: seq<Student>, s: string): (n: nat)
    ensures n == multiset(Statuses(rows))[s]
    ensures n <= |rows|
    ensures n == 0 <==> forall i :: 0 <= i < |rows| ==> rows[i].fields.status != s
    ensures n == |rows| <==> forall i :: 0 <= i < |rows| ==> rows[i].fields.status == s
  {
    if rows == [] then 0
    else
      var n := (if rows[0].fields.status == s then 1 else 0) + CountStatus(rows[1..], s);
      assert forall i :: 0 < i < |rows| ==> rows[i] == rows[1..][i - 1];
      StatusesCons(rows);
      n
  }

  /** No row is counted both as active and as inactive. */
  lemma {:induction false} StatusCountsDisjoint(rows: seq<Student>, a: string, b: string)
    requires a != b
    ensures CountStatus(rows, a) + CountStatus(rows, b) <= |rows|
  {
    if rows != [] {
      StatusCountsDisjoint(rows[1..], a, b);
    }
  }

  /** The `course` column, in rowid order. */
  function Courses(rows: seq<Student>): (r: seq<string>)
    ensures |r| == |rows| && forall i :: 0 <= i < |rows| ==> r[i] == rows[i].fields.course
  {
    seq(|rows|, i requires 0 <= i < |rows| => rows[i].fields.course)
  }

  /** The `grade` column, in rowid order. */
  function GradeColumn(rows: seq<Student>): (r: seq<string>)
    ensures |r| == |rows| && forall i :: 0 <= i < |rows| ==> r[i] == rows[i].fields.grade
  {
    seq(|rows|, i requires 0 <= i < |rows| => rows[i].fields.grade)
  }

  lemma GradeColumnCons(rows: seq<Student>)
    requires rows != []
    ensures GradeColumn(rows) == [rows[0].fields.grade] + GradeColumn(rows[1..])
  {
    assert forall i :: 0 < i < |rows| ==> rows[i] == rows[1..][i - 1];
  }

  /** The `grade` values `WHERE grade IS NOT NULL AND grade != ''` keeps:
      every non-empty grade as often as the column holds it, and no empty one. */
  function Grades(rows: seq<Student>): (r: seq<string>)
    ensures |r| <= |rows|
    ensures forall g :: g in r <==> g != "" && exists i :: 0 <= i < |rows| && rows[i].fields.grade == g
    ensures forall g :: multiset(r)[g] == if g == "" then 0 else multiset(GradeColumn(rows))[g]
  {
    if rows == [] then []
    else
      var rest := Grades(rows[1..]);
      GradesStep(rows, rest);
      (if rows[0].fields.grade != "" then [rows[0].fields.grade] else []) + rest
  }

  lemma GradesStep(rows: seq<Student>, rest: seq<string>)
    requires rows != []
    requires |rest| <= |rows[1..]|
    requires forall g :: g in rest <==> g != "" && exists i :: 0 <= i < |rows[1..]| && rows[1..][i].fields.grade == g
    requires forall g :: multiset(rest)[g] == if g == "" then 0 else multiset(GradeColumn(rows[1..]))[g]
    ensures var r := (if rows[0].fields.grade != "" then [rows[0].fields.grade] else []) + rest;
      && |r| <= |rows|
      && (forall g :: g in r <==> g != "" && exists i :: 0 <= i < |rows| && rows[i].fields.grade == g)
      && (forall g :: multiset(r)[g] == if g == "" then 0 else multiset(GradeColumn(rows))[g])
  {
    var x := rows[0].fields.grade;
    var r := (if x != "" then [x] else []) + rest;
    assert forall g :: multiset(r)[g] == if g == "" then 0 else multiset(GradeColumn(rows))[g] by {
      GradeColumnCons(rows);
      assert multiset(r) == multiset(if x != "" then [x] else []) + multiset(rest);
    }
    assert forall g :: g in r <==> g != "" && exists i :: 0 <= i < |rows| && rows[i].fields.grade == g by {
      assert forall i :: 0 < i < |rows| ==> rows[i] == rows[1..][i - 1];
    }
  }

  predicate DistinctNames(g: seq<Tally>) {
    forall i, j :: 0 <= i < j < |g| ==> g[i].name != g[j].name
  }

  predicate Lists(g: seq<Tally>, k: string) {
    exists i :: 0 <= i < |g| && g[i].name == k
  }

  /** `g` is a `GROUP BY` of `keys`: one entry per distinct key, carrying the
      number of times the key occurs. */
  predicate Tallies(g: seq<Tally>, keys: seq<string>) {
    && DistinctNames(g)
    && (forall i :: 0 <= i < |g| ==> g[i].cnt == multiset(keys)[g[i].name] > 0)
    && (forall k :: k in keys ==> Lists(g, k))
  }

  function Sum(g: seq<Tally>): nat {
    if g == [] then 0 else g[0].cnt + Sum(g[1..])
  }

  lemma {:induction false} SumConcat(a: seq<Tally>, b: seq<Tally>)
    ensures Sum(a + b) == Sum(a) + Sum(b)
  {
    if a == [] {
      assert a + b == b;
    } else {
      assert (a + b)[0] == a[0] && (a + b)[1..] == a[1..] + b;
      SumConcat(a[1..], b);
    }
  }

  lemma {:induction false} SumUpdate(g: seq<Tally>, i: nat, t: Tally)
    requires i < |g|
    ensures Sum(g[i := t]) == Sum(g) - g[i].cnt + t.cnt
  {
    if i > 0 {
      assert g[i := t][1..] == g[1..][i - 1 := t];
      SumUpdate(g[1..], i - 1, t);
    }
  }

  /** Reordering the rows of a result leaves the sum of its counts alone. */
  lemma {:induction false} SumPerm(a: seq<Tally>, b: seq<Tally>)
    requires multiset(a) == multiset(b)
    ensures Sum(a) == Sum(b)
    decreases |a|
  {
    if a == [] {
      assert |b| == |multiset(b)| == 0;
    } else {
      var x := a[0];
      assert x in multiset(b);
      var k :| 0 <= k < |b| && b[k] == x;
      var b' := b[..k] + b[k + 1..];
      var tail := [x] + b[k + 1..];
      assert b == b[..k] + tail;
      assert multiset(a[1..]) == multiset(b') by {
        assert multiset(b) == multiset(b[..k]) + multiset{x} + multiset(b[k + 1..]);
        assert multiset(b') == multiset(b) - multiset{x};
        assert a == [x] + a[1..];
        assert multiset(a[1..]) == multiset(a) - multiset{x};
      }
      SumPerm(a[1..], b');
      SumConcat(b[..k], tail);
      SumConcat(b[..k], b[k + 1..]);
      assert tail[0] == x && tail[1..] == b[k + 1..];
      assert Sum(b) == Sum(b[..k]) + x.cnt + Sum(b[k + 1..]);
      assert Sum(a) == x.cnt + Sum(a[1..]);
    }
  }

  /** Pairwise different elements occur once each. */
  lemma {:induction false} DistinctOnce<T>(a: seq<T>, x: T)
    requires forall i, j :: 0 <= i < j < |a| ==> a[i] != a[j]
    ensures multiset(a)[x] <= 1
  {
    if a != [] {
      assert a == [a[0]] + a[1..];
      DistinctOnce(a[1..], x);
      if a[0] == x {
        forall k | 0 <= k < |a[1..]| ensures a[1..][k] != x {
          assert a[0] != a[k + 1];
        }
        assert x !in a[1..];
      }
    }
  }

  /** An element that occurs once is found at one index only. */
  lemma OnceDistinct<T>(b: seq<T>, i: nat, j: nat)
    requires i < j < |b| && multiset(b)[b[i]] <= 1
    ensures b[i] != b[j]
  {
    assert b == b[..j] + [b[j]] + b[j + 1..];
    assert b[i] in b[..j];
    assert multiset(b)[b[i]] >= multiset(b[..j])[b[i]] + multiset([b[j]])[b[i]];
  }

  /** Reordering a grouped result keeps its labels distinct. */
  lemma DistinctNamesPerm(a: seq<Tally>, b: seq<Tally>)
    requires multiset(a) == multiset(b) && DistinctNames(a)
    ensures DistinctNames(b)
  {
    forall i, j | 0 <= i < j < |b| ensures b[i].name != b[j].name {
      DistinctOnce(a, b[i]);
      OnceDistinct(b, i, j);
      assert b[i] in multiset(a) && b[j] in multiset(a);
      var p :| 0 <= p < |a| && a[p] == b[i];
      var q :| 0 <= q < |a| && a[q] == b[j];
      assert p != q;
    }
  }

  /** Reordering a grouped result keeps it a grouping of the same keys. */
  lemma TalliesPerm(a: seq<Tally>, b: seq<Tally>, keys: seq<string>)
    requires multiset(a) == multiset(b) && Tallies(a, keys)
    ensures Tallies(b, keys)
    ensures Sum(b) == Sum(a)
  {
    DistinctNamesPerm(a, b);
    forall i | 0 <= i < |b| ensures b[i].cnt == multiset(keys)[b[i].name] > 0 {
      assert b[i] in multiset(a);
    }
    forall k | k in keys ensures Lists(b, k) {
      var i :| 0 <= i < |a| && a[i].name == k;
      assert a[i] in multiset(b);
    }
    SumPerm(a, b);
  }

  /** The index of the entry labelled `k`, or `|g|` when there is none. */
  function IndexOf(g: seq<Tally>, k: string): (i: nat)
    ensures i <= |g|
    ensures i < |g| ==> g[i].name == k
    ensures forall j :: 0 <= j < i ==> g[j].name != k
  {
    if g == [] then 0
    else if g[0].name == k then 0
    else 1 + IndexOf(g[1..], k)
  }

  /** Counts one more occurrence of `k`. */
  function Bump(g: seq<Tally>, k: string): seq<Tally> {
    var i := IndexOf(g, k);
    if i < |g| then g[i := Tally(k, g[i].cnt + 1)] else g + [Tally(k, 1)]
  }

  lemma BumpTallies(g: seq<Tally>, keys: seq<string>, k: string)
    requires Tallies(g, keys)
    ensures Tallies(Bump(g, k), keys + [k])
    ensures Sum(Bump(g, k)) == Sum(g) + 1
  {
    var i := IndexOf(g, k);
    var r := Bump(g, k);
    var keys' := keys + [k];
    assert multiset(keys') == multiset(keys) + multiset{k};
    if i < |g| {
      SumUpdate(g, i, Tally(k, g[i].cnt + 1));
      forall j | 0 <= j < |r| ensures r[j].cnt == multiset(keys')[r[j].name] > 0 {
        if j != i {
          assert g[j].name != g[i].name;
        }
      }
      forall x | x in keys' ensures Lists(r, x) {
        if x != k {
          var j :| 0 <= j < |g| && g[j].name == x;
          assert r[j].name == x;
        } else {
          assert r[i].name == x;
        }
      }
    } else {
      SumConcat(g, [Tally(k, 1)]);
      assert !Lists(g, k);
      assert !(k in keys);
      forall x | x in keys' ensures Lists(r, x) {
        if x != k {
          var j :| 0 <= j < |g| && g[j].name == x;
          assert r[j].name == x;
        } else {
          assert r[|g|].name == x;
        }
      }
    }
  }

  /** `GROUP BY` over a column: `keys` folded one value at a time. */
  function Group(keys: seq<string>): (g: seq<Tally>)
    ensures Tallies(g, keys)
    ensures Sum(g) == |keys|
  {
    if keys == [] then []
    else
      var init := keys[..|keys| - 1];
      var last := keys[|keys| - 1];
      var g := Group(init);
      BumpTallies(g, init, last);
      assert init + [last] == keys;
      Bump(g, last)
  }

  function CountKey(t: Tally): Key {
    IntKey(t.cnt)
  }

  function NameKey(t: Tally): Key {
    TextKey(t.name)
  }

  /** `SELECT course, COUNT(*) AS cnt ... GROUP BY course ORDER BY cnt DESC`:
      each course once with its number of students, the largest count first
      (courses with equal counts in an order SQLite leaves open); the counts
      add up to the number of students. */
  function CourseTally(rows: seq<Student>): (r: seq<Tally>)
    ensures Tallies(r, Courses(rows))
    ensures Sum(r) == |rows|
    ensures forall i, j :: 0 <= i < j < |r| ==> r[i].cnt >= r[j].cnt
  {
    var g := Group(Courses(rows));
    var s := SortBy(g, CountKey, true);
    TalliesPerm(g, s, Courses(rows));
    forall i, j | 0 <= i < j < |s| ensures s[i].cnt >= s[j].cnt {
      assert InOrder(s[i], s[j], CountKey, true);
    }
    s
  }

  /** `SELECT grade, COUNT(*) AS cnt ... WHERE grade IS NOT NULL AND grade != ''
      GROUP BY grade ORDER BY grade`: each non-empty grade once with its
      number of students, in strictly ascending BINARY order. */
  function GradeTally(rows: seq<Student>): (r: seq<Tally>)
    ensures Tallies(r, Grades(rows))
    ensures Sum(r) == |Grades(rows)|
    ensures forall i :: 0 <= i < |r| ==> r[i].name != ""
    ensures forall i, j :: 0 <= i < j < |r| ==> TextLe(r[i].name, r[j].name) && r[i].name != r[j].name
  {
    var g := Group(Grades(rows));
    var s := SortBy(g, NameKey, false);
    TalliesPerm(g, s, Grades(rows));
    var grades := Grades(rows);
    forall i | 0 <= i < |s| ensures s[i].name != "" {
      assert multiset(grades)[s[i].name] > 0;
      assert s[i].name in grades;
    }
    forall i, j | 0 <= i < j < |s| ensures TextLe(s[i].name, s[j].name) {
      assert InOrder(s[i], s[j], NameKey, false);
    }
    s
  }

  /** The whole response. */
  function GetStats(t: Table): (r: Stats)
    ensures r.total == |t.rows|
    ensures r.active == CountStatus(t.rows, "Active") && r.inactive == CountStatus(t.rows, "Inactive")
    ensures r.active + r.inactive <= r.total
    ensures Sum(r.courses) == r.total
    ensures |r.courses| <= r.total
    ensures Sum(r.grades) <= r.total
    ensures r.courses == CourseTally(t.rows) && r.grades == GradeTally(t.rows)
  {
    var courses := CourseTally(t.rows);
    var grades := GradeTally(t.rows);
    StatusCountsDisjoint(t.rows, "Active", "Inactive");
    TallyLength(courses, Courses(t.rows));
    Stats(|t.rows|, CountStatus(t.rows, "Active"), CountStatus(t.rows, "Inactive"), courses, grades)
  }

  /** Every entry of a grouping counts at least one key. */
  lemma {:induction false} TallyLength(g: seq<Tally>, keys: seq<string>)
    requires forall i :: 0 <= i < |g| ==> g[i].cnt > 0
    ensures |g| <= Sum(g)
  {
    if g != [] {
      TallyLength(g[1..], keys);
    }
  }
}

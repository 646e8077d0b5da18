/** `GET /api/students` of routes/students.js: the allow-listed sort column and
    direction, the search / course / status filter, and the page arithmetic
    of `LIMIT ? OFFSET ?` and `totalPages`. */
module StudentQueries {
  import opened Common
  import opened Text
  import opened Ordering
  import opened SqlLike
  import opened Store

  /** The three filters of the query string. */
  datatype Filters = Filters(search: string, course: string, status: string)

  /** The query string after its defaults are applied, with `page` and `limit`
      already through `parseInt`. */
  datatype Query = Query(filters: Filters, page: int, limit: int, sort: string, order: string)

  /** The defaults of the destructuring at the top of the handler. */
  const DefaultQuery := Query(Filters("", "", ""), 1, 10, "id", "ASC")

  /** The JSON body `{ data, total, page, limit, totalPages }`; `totalPages`
      is `None` where `Math.ceil` yields `Infinity` or `NaN`, which JSON
      writes as `null`. */
  datatype Listing = Listing(
    data: seq<Student>, total: nat, page: int, limit: int, totalPages: Option<int>)

  /** The columns a client may sort by. */
  datatype Column = Id | Name | Email | Course | Grade | Status | CreatedAt

  function ColumnName(c: Column): string {
    match c
    case Id => "id"
    case Name => "name"
    case Email => "email"
    case Course => "course"
    case Grade => "grade"
    case Status => "status"
    case CreatedAt => "created_at"
  }

  const AllowedSorts: seq<string> := ["id", "name", "email", "course", "grade", "status", "created_at"]

  /** `allowedSorts.includes(sort) ? sort : 'id'`: an exact, case-sensitive
      match against the allow-list, so no other text reaches `ORDER BY`. */
  function SafeSort(sort: string): (c: Column)
    ensures sort in AllowedSorts ==> ColumnName(c) == sort
    ensures sort !in AllowedSorts ==> c == Id
  {
    if sort == "name" then Name
    else if sort == "email" then Email
    else if sort == "course" then Course
    else if sort == "grade" then Grade
    else if sort == "status" then Status
    else if sort == "created_at" then CreatedAt
    else Id
  }

  /** Every column's own name selects it, and the allow-list is exactly the
      set of column names. */
  lemma SafeSortRoundTrip(c: Column)
    ensures SafeSort(ColumnName(c)) == c
    ensures ColumnName(c) in AllowedSorts
  {
  }

  datatype Direction = Asc | Desc

  function DirectionName(d: Direction): string {
    match d
    case Asc => "ASC"
    case Desc => "DESC"
  }

  /** `allowedOrders.includes(order.toUpperCase()) ? order.toUpperCase() : 'ASC'`:
      descending exactly when the upper-cased text is `DESC`; `ASC` and
      anything else sort ascending. */
  function SafeOrder(order: string): (d: Direction)
    ensures d == Desc <==> Upper(order) == "DESC"
  {
    if Upper(order) == "DESC" then Desc else Asc
  }

  /** Each direction's name selects it, and so does its lower-case spelling. */
  lemma SafeOrderRoundTrip(d: Direction)
    ensures SafeOrder(DirectionName(d)) == d
    ensures SafeOrder(Lower(DirectionName(d))) == d
  {
    var w := DirectionName(d);
    assert Upper(w) == w;
    var l := Lower(w);
    assert Upper(l) == w;
    if d == Asc {
      assert Upper(l) != "DESC" by {
        assert |Upper(l)| == 3;
      }
    }
  }

  /** The value `ORDER BY` compares for a column: `id` is an INTEGER, every
      other allowed column TEXT. */
  function KeyOf(c: Column): Student -> Key {
    (s: Student) =>
      match c
      case Id => IntKey(s.id)
      case Name => TextKey(s.fields.name)
      case Email => TextKey(s.fields.email)
      case Course => TextKey(s.fields.course)
      case Grade => TextKey(s.fields.grade)
      case Status => TextKey(s.fields.status)
      case CreatedAt => TextKey(s.createdAt)
  }

  /** `name LIKE ? OR email LIKE ? OR phone LIKE ?`, each with `%term%`. */
  predicate SearchHit(s: Student, term: string) {
    var p := Surround(term);
    Like(s.fields.name, p) || Like(s.fields.email, p) || Like(s.fields.phone, p)
  }

  /** For a search term without `%` or `_`, the search is a case-insensitive
      substring test on name, e-mail and phone. */
  lemma SearchHitIsSubstring(s: Student, term: string)
    requires NoWildcards(term)
    ensures SearchHit(s, term) <==>
      || ContainsIgnoreCase(s.fields.name, term)
      || ContainsIgnoreCase(s.fields.email, term)
      || ContainsIgnoreCase(s.fields.phone, term)
  {
    LikeSurroundIsContains(s.fields.name, term);
    LikeSurroundIsContains(s.fields.email, term);
    LikeSurroundIsContains(s.fields.phone, term);
  }

  /** The WHERE clause: each filter applies only when its text is non-empty
      (JavaScript truthiness of a string). */
  predicate Matches(s: Student, f: Filters) {
    && (f.search == "" || SearchHit(s, f.search))
    && (f.course == "" || s.fields.course == f.course)
    && (f.status == "" || s.fields.status == f.status)
  }

  /** The rows the WHERE clause keeps, in rowid order. */
  function Filter(rows: seq<Student>, f: Filters): (r: seq<Student>)
    ensures |r| <= |rows|
    ensures forall x :: x in r <==> x in rows && Matches(x, f)
    ensures (forall i :: 0 <= i < |rows| ==> Matches(rows[i], f)) ==> r == rows
  {
    if rows == [] then []
    else
      var rest := Filter(rows[1..], f);
      FilterStep(rows, f, rest);
      (if Matches(rows[0], f) then [rows[0]] else []) + rest
  }

  /** One step of `Filter`: from what `rest` is for `rows[1..]`, adding the
      first row when it matches gives the same for `rows`. */
  lemma FilterStep(rows: seq<Student>, f: Filters, rest: seq<Student>)
    requires rows != []
    requires |rest| <= |rows[1..]|
    requires forall x :: x in rest <==> x in rows[1..] && Matches(x, f)
    requires (forall i :: 0 <= i < |rows[1..]| ==> Matches(rows[1..][i], f)) ==> rest == rows[1..]
    ensures var r := (if Matches(rows[0], f) then [rows[0]] else []) + rest;
      && |r| <= |rows|
      && (forall x :: x in r <==> x in rows && Matches(x, f))
      && ((forall i :: 0 <= i < |rows| ==> Matches(rows[i], f)) ==> r == rows)
  {
    assert rows == [rows[0]] + rows[1..];
    if forall i :: 0 <= i < |rows| ==> Matches(rows[i], f) {
      forall i | 0 <= i < |rows[1..]| ensures Matches(rows[1..][i], f) {
        assert rows[1..][i] == rows[i + 1];
      }
    }
  }

  /** `Filter` keeps each matching row as often as the table holds it and
      drops every other row, so its length is the number of matching
      records. */
  lemma {:induction false} FilterCounts(rows: seq<Student>, f: Filters)
    ensures forall x :: multiset(Filter(rows, f))[x] == if Matches(x, f) then multiset(rows)[x] else 0
    decreases |rows|
  {
    if rows != [] {
      FilterCounts(rows[1..], f);
      assert Filter(rows, f) == (if Matches(rows[0], f) then [rows[0]] else []) + Filter(rows[1..], f);
      assert rows == [rows[0]] + rows[1..];
    }
  }

  /** The matching rows in `ORDER BY safeSort safeOrder` order (ties in an
      order SQLite leaves open). */
  function Ordered(rows: seq<Student>, q: Query): (r: seq<Student>)
    ensures SortedBy(r, KeyOf(SafeSort(q.sort)), SafeOrder(q.order) == Desc)
    ensures multiset(r) == multiset(Filter(rows, q.filters))
    ensures |r| == |Filter(rows, q.filters)|
  {
    SortBy(Filter(rows, q.filters), KeyOf(SafeSort(q.sort)), SafeOrder(q.order) == Desc)
  }

  /** `(Math.max(1, page) - 1) * limit`. */
  function Offset(q: Query): (o: int)
    ensures q.limit >= 0 ==> o >= 0
    ensures q.limit < 0 ==> o <= 0
    ensures q.page <= 1 ==> o == 0
  {
    var k := Max(1, q.page) - 1;
    assert q.limit >= 0 ==> k * q.limit >= 0;
    assert q.limit < 0 ==> k * q.limit <= 0;
    k * q.limit
  }

  lemma OffsetOfPage(q: Query, p: int)
    requires p >= 1
    ensures Offset(q.(page := p)) == (p - 1) * q.limit
  {
  }

  /** SQLite's `LIMIT limit OFFSET offset`: a negative offset counts as zero and
      a negative limit means no limit. */
  function LimitOffset<T>(s: seq<T>, limit: int, offset: int): (r: seq<T>)
    ensures limit >= 0 ==> |r| <= limit
    ensures limit < 0 ==> |r| == |s| - Min(Max(0, offset), |s|)
    ensures limit >= 0 && 0 <= offset ==> |r| == Max(0, Min(limit, |s| - offset))
    ensures r == [] || Max(0, offset) + |r| <= |s|
    ensures forall j :: 0 <= j < |r| ==> r[j] == s[Max(0, offset) + j]
  {
    var start := Min(Max(0, offset), |s|);
    var end := if limit < 0 then |s| else Min(start + limit, |s|);
    s[start..end]
  }

  /** A window of a sorted sequence is sorted and holds only its elements. */
  lemma WindowSorted<T>(s: seq<T>, limit: int, offset: int, key: T -> Key, desc: bool)
    requires SortedBy(s, key, desc)
    ensures SortedBy(LimitOffset(s, limit, offset), key, desc)
    ensures forall x :: x in LimitOffset(s, limit, offset) ==> x in s
  {
    var w := LimitOffset(s, limit, offset);
    var o := Max(0, offset);
    forall i, j | 0 <= i < j < |w| ensures InOrder(w[i], w[j], key, desc) {
      assert w[i] == s[o + i] && w[j] == s[o + j];
    }
  }

  /** JavaScript `Math.ceil(total / limit)`, `None` when the division by zero
      gives `Infinity` or `NaN`. */
  function CeilDiv(total: nat, limit: int): (r: Option<int>)
    ensures r.None? <==> limit == 0
    ensures limit > 0 ==> (r.value - 1) * limit < total <= r.value * limit
    ensures limit < 0 ==> r.value * limit <= total < (r.value - 1) * limit
  {
    if limit == 0 then None
    else if limit > 0 then
      var c := (total + limit - 1) / limit;
      DivBounds(total + limit - 1, limit);
      assert (c - 1) * limit == c * limit - limit;
      Some(c)
    else
      var m := -limit;
      var c := total / m;
      DivBounds(total, m);
      assert (-c) * limit == c * m;
      assert (-c - 1) * limit == c * m + m;
      Some(-c)
  }

  /** The requested page of the ordered matches is sorted and holds only
      matching rows of the table. */
  lemma OrderedWindow(t: Table, q: Query)
    ensures var w := LimitOffset(Ordered(t.rows, q), q.limit, Offset(q));
      && SortedBy(w, KeyOf(SafeSort(q.sort)), SafeOrder(q.order) == Desc)
      && forall x :: x in w ==> x in t.rows && Matches(x, q.filters)
  {
    var s := Ordered(t.rows, q);
    WindowSorted(s, q.limit, Offset(q), KeyOf(SafeSort(q.sort)), SafeOrder(q.order) == Desc);
    forall x | x in LimitOffset(s, q.limit, Offset(q)) ensures x in t.rows && Matches(x, q.filters) {
      assert x in multiset(s);
      assert x in multiset(Filter(t.rows, q.filters));
    }
  }

  /** The handler's response for the table `t`. */
  function List(t: Table, q: Query): (r: Listing)
    ensures r.page == q.page && r.limit == q.limit
    ensures r.total == |Filter(t.rows, q.filters)| <= |t.rows|
    ensures (forall i :: 0 <= i < |t.rows| ==> Matches(t.rows[i], q.filters)) ==> r.total == |t.rows|
    ensures r.totalPages == CeilDiv(r.total, q.limit)
    ensures forall x :: x in r.data ==> x in t.rows && Matches(x, q.filters)
    ensures SortedBy(r.data, KeyOf(SafeSort(q.sort)), SafeOrder(q.order) == Desc)
    ensures q.limit >= 0 ==> |r.data| <= q.limit
    ensures q.limit > 0 ==> |r.data| == Max(0, Min(q.limit, r.total - Offset(q)))
  {
    var ordered := Ordered(t.rows, q);
    OrderedWindow(t, q);
    Listing(LimitOffset(ordered, q.limit, Offset(q)), |ordered|, q.page, q.limit, CeilDiv(|ordered|, q.limit))
  }

  /** With a positive limit, the rows shown on page `p` are the `limit`
      positions from `Offset` on of one ordering that does not depend on the
      page, so consecutive pages tile that ordering. */
  lemma PagesAreSlices(t: Table, q: Query, p: int)
    requires q.limit > 0
    ensures var n, start := |Ordered(t.rows, q)|, Offset(q.(page := p));
      List(t, q.(page := p)).data == Ordered(t.rows, q)[Min(start, n)..Min(start + q.limit, n)]
  {
    var q' := q.(page := p);
    var s, o := Ordered(t.rows, q), Offset(q');
    assert List(t, q').data == LimitOffset(s, q.limit, o) by {
      ListData(t, q');
      OrderedIgnoresPage(t, q, p);
    }
    assert LimitOffset(s, q.limit, o) == s[Min(o, |s|)..Min(o + q.limit, |s|)] by {
      WindowIsSlice(s, q.limit, o);
    }
  }

  /** The rows a listing shows are the `LIMIT/OFFSET` window of the ordered
      matches. */
  lemma ListData(t: Table, q: Query)
    ensures List(t, q).data == LimitOffset(Ordered(t.rows, q), q.limit, Offset(q))
  {
  }

  /** The ordering does not depend on the page asked for. */
  lemma OrderedIgnoresPage(t: Table, q: Query, p: int)
    ensures Ordered(t.rows, q.(page := p)) == Ordered(t.rows, q)
  {
  }

  /** With a positive limit and a non-negative offset, the window is a slice. */
  lemma WindowIsSlice<T>(s: seq<T>, limit: int, offset: int)
    requires limit > 0 && offset >= 0
    ensures LimitOffset(s, limit, offset) == s[Min(offset, |s|)..Min(offset + limit, |s|)]
  {
  }

  /** Floor division brackets its dividend. */
  lemma DivBounds(k: int, l: int)
    requires l > 0
    ensures (k / l) * l <= k < (k / l) * l + l
  {
    assert k == l * (k / l) + k % l;
  }

  lemma LessByFactor(a: int, b: int, c: int)
    requires c > 0 && a * c < b * c
    ensures a < b
  {
    assert (b - a) * c > 0;
  }

  /** The page on which position `k` of the ordered result is shown. */
  function PageOf(k: nat, limit: int): int
    requires limit > 0
  {
    k / limit + 1
  }

  /** Position `k` of `n` falls on a page no later than the last. */
  lemma PageWithinTotal(n: nat, limit: int, k: nat)
    requires limit > 0 && k < n
    ensures 1 <= PageOf(k, limit) <= CeilDiv(n, limit).value
  {
    var tp := CeilDiv(n, limit).value;
    var d := k / limit;
    DivBounds(k, limit);
    assert d * limit < tp * limit;
    LessByFactor(d, tp, limit);
  }

  /** Position `k` lies in the window of its page. */
  lemma InPageWindow(limit: int, k: nat)
    requires limit > 0
    ensures var start := (PageOf(k, limit) - 1) * limit;
      0 <= start <= k < start + limit
  {
    DivBounds(k, limit);
    assert (PageOf(k, limit) - 1) * limit == (k / limit) * limit;
  }

  /** Position `k` lies among the `limit` rows from the offset of its page. */
  lemma PageStartsBefore(q: Query, k: nat)
    requires q.limit > 0
    ensures var o := Offset(q.(page := PageOf(k, q.limit)));
      0 <= o <= k < o + q.limit
  {
    InPageWindow(q.limit, k);
    OffsetOfPage(q, PageOf(k, q.limit));
  }

  /** With a positive limit every matching row is listed on the page its
      position in the ordered result gives. */
  lemma ListedOnItsPage(t: Table, q: Query, k: nat)
    requires q.limit > 0 && k < |Ordered(t.rows, q)|
    ensures Ordered(t.rows, q)[k] in List(t, q.(page := PageOf(k, q.limit))).data
  {
    var q' := q.(page := PageOf(k, q.limit));
    var s, o := Ordered(t.rows, q), Offset(q');
    PageStartsBefore(q, k);
    OrderedIgnoresPage(t, q, PageOf(k, q.limit));
    ListData(t, q');
    var d := LimitOffset(s, q.limit, o);
    assert d[k - o] == s[k];
  }

  /** ... and that page is within `totalPages`. */
  lemma EveryMatchOnItsPage(t: Table, q: Query, k: nat)
    requires q.limit > 0 && k < |Filter(t.rows, q.filters)|
    ensures 1 <= PageOf(k, q.limit) <= List(t, q).totalPages.value
    ensures Ordered(t.rows, q)[k] in List(t, q.(page := PageOf(k, q.limit))).data
  {
    PageWithinTotal(|Filter(t.rows, q.filters)|, q.limit, k);
    ListedOnItsPage(t, q, k);
  }
}

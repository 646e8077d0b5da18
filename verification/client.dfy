/** public/js/app.js: the browser's list state, the pagination bar, the sort
    and filter handlers, the page step after a delete, and the routing of
    validation messages to form fields. The DOM itself is not modelled: a
    rendered bar is the sequence of its controls. */
module Client {
  import opened Common
  import opened Text
  import opened StudentRoutes
  import opened StudentQueries

  /** The `state` object that parameterises every list request. */
  datatype State = State(page: int, limit: int, sort: string, order: string,
                         search: string, course: string, status: string)

  const Initial := State(1, 10, "id", "ASC", "", "", "")

  // ── Pagination bar ────────────────────────────────────────────────────────

  datatype Label = First | Prev | Number(n: int) | Next | Last

  /** One child of the pagination container: the record-count label, a
      `page-btn` (the page it sets on click, whether it is the current page,
      whether it is disabled), or an ellipsis. */
  datatype Control =
    | Info(total: int, plural: bool)
    | Button(caption: Label, target: int, active: bool, disabled: bool)
    | Dots

  /** `pageBtn(label, pg, disabled)`: active exactly on the current page. */
  function PageButton(caption: Label, pg: int, page: int, disabled: bool): Control {
    Button(caption, pg, pg == page, disabled)
  }

  /** A numbered button, never disabled. */
  function Numbered(p: int, page: int): Control {
    PageButton(Number(p), p, page, false)
  }

  predicate IsNumbered(c: Control) {
    c.Button? && c.caption.Number?
  }

  /** The pages of the numbered buttons, left to right. */
  function Numbers(cs: seq<Control>): seq<int> {
    if cs == [] then []
    else (if IsNumbered(cs[0]) then [cs[0].target] else []) + Numbers(cs[1..])
  }

  lemma {:induction false} NumbersConcat(a: seq<Control>, b: seq<Control>)
    ensures Numbers(a + b) == Numbers(a) + Numbers(b)
    decreases |a|
  {
    if a != [] {
      var h := if IsNumbered(a[0]) then [a[0].target] else [];
      assert (a + b)[0] == a[0];
      assert (a + b)[1..] == a[1..] + b;
      NumbersConcat(a[1..], b);
      assert Numbers(a + b) == h + Numbers(a[1..] + b);
      assert Numbers(a) == h + Numbers(a[1..]);
    } else {
      assert a + b == b;
    }
  }

  /** The `for` loop and `pages.forEach`: buttons `lo`, `lo + 1`, …, `hi`. */
  function Window(lo: int, hi: int, page: int): seq<Control>
    decreases hi - lo
  {
    if lo > hi then [] else [Numbered(lo, page)] + Window(lo + 1, hi, page)
  }

  /** The numbered part of the bar as `renderPagination` builds it: a window of
      two pages either side of `page`, clipped to `1..totalPages`; page 1 in
      front of it when it starts at 2 or later, with an ellipsis when it starts
      after 2; `totalPages` after it, symmetrically. An empty window (a page far
      outside the range) leaves `pages[0]` undefined and adds nothing. */
  function Middle(page: int, totalPages: int): seq<Control> {
    var lo, hi := Max(1, page - 2), Min(totalPages, page + 2);
    if lo > hi then [] else Lead(lo, page) + Window(lo, hi, page) + Trail(hi, totalPages, page)
  }

  /** What goes before a window that starts at `lo`. */
  function Lead(lo: int, page: int): seq<Control> {
    if lo > 2 then [Numbered(1, page), Dots] else if lo == 2 then [Numbered(1, page)] else []
  }

  /** What goes after a window that ends at `hi`. */
  function Trail(hi: int, totalPages: int, page: int): seq<Control> {
    if hi < totalPages - 1 then [Dots, Numbered(totalPages, page)]
    else if hi == totalPages - 1 then [Numbered(totalPages, page)] else []
  }

  /** `renderPagination({ total, page, totalPages })`: the record count, then,
      when there is more than one page, «, ‹, the numbered part, › and ». */
  function Pagination(total: int, page: int, totalPages: int): (cs: seq<Control>)
    ensures |cs| >= 1 && cs[0] == Info(total, total != 1)
    ensures totalPages <= 1 <==> |cs| == 1
    ensures totalPages > 1 ==> |cs| >= 5 && cs[3..|cs| - 2] == Middle(page, totalPages)
    ensures totalPages > 1 ==> (cs[1].Button? && cs[1].caption == First && cs[1].target == 1 &&
      cs[1].disabled == (page == 1))
    ensures totalPages > 1 ==> (cs[2].Button? && cs[2].caption == Prev && cs[2].target == page - 1 &&
      cs[2].disabled == (page == 1))
    ensures totalPages > 1 ==> (cs[|cs| - 2].Button? && cs[|cs| - 2].caption == Next &&
      cs[|cs| - 2].target == page + 1 && cs[|cs| - 2].disabled == (page == totalPages))
    ensures totalPages > 1 ==> (cs[|cs| - 1].Button? && cs[|cs| - 1].caption == Last &&
      cs[|cs| - 1].target == totalPages && cs[|cs| - 1].disabled == (page == totalPages))
  {
    var info := [Info(total, total != 1)];
    if totalPages <= 1 then info
    else
      var m := Middle(page, totalPages);
      var cs := info
        + [PageButton(First, 1, page, page == 1), PageButton(Prev, page - 1, page, page == 1)]
        + m
        + [PageButton(Next, page + 1, page, page == totalPages), PageButton(Last, totalPages, page, page == totalPages)];
      assert cs[3..|cs| - 2] == m;
      cs
  }

  // ── What the bar shows ────────────────────────────────────────────────────

  predicate StrictlyAscending(ns: seq<int>) {
    forall i, j :: 0 <= i < j < |ns| ==> ns[i] < ns[j]
  }

  /** The pages the bar offers: first and last page and those within two of
      the current one, provided the current page is within two of `1..totalPages`
      at all. */
  predicate Visible(p: int, page: int, totalPages: int) {
    && 1 <= p <= totalPages
    && -1 <= page <= totalPages + 2
    && (p == 1 || p == totalPages || page - 2 <= p <= page + 2)
  }

  /** `[lo, lo + 1, …, hi]`. */
  function Range(lo: int, hi: int): (r: seq<int>)
    ensures |r| == if lo <= hi then hi - lo + 1 else 0
    ensures forall i :: 0 <= i < |r| ==> r[i] == lo + i
    decreases hi - lo
  {
    if lo > hi then [] else [lo] + Range(lo + 1, hi)
  }

  /** The numbered pages of the bar, in order: exactly the visible ones, each
      once, ascending. */
  function Shown(page: int, totalPages: int): (ns: seq<int>)
    ensures StrictlyAscending(ns)
    ensures forall p :: p in ns <==> Visible(p, page, totalPages)
  {
    var lo, hi := Max(1, page - 2), Min(totalPages, page + 2);
    if lo > hi then []
    else
      var front := if lo >= 2 then [1] else [];
      var back := if hi <= totalPages - 1 then [totalPages] else [];
      var ns := front + Range(lo, hi) + back;
      assert forall p :: p in Range(lo, hi) <==> lo <= p <= hi by {
        forall p | lo <= p <= hi ensures p in Range(lo, hi) {
          assert Range(lo, hi)[p - lo] == p;
        }
      }
      ns
  }

  /** The reference rendering of an ascending list of pages: a button per
      page, with an ellipsis wherever pages are skipped. */
  function Render(ns: seq<int>, page: int): seq<Control>
    decreases |ns|
  {
    if ns == [] then []
    else if |ns| == 1 then [Numbered(ns[0], page)]
    else [Numbered(ns[0], page)] + (if ns[0] + 1 < ns[1] then [Dots] else []) + Render(ns[1..], page)
  }

  /** Every control of a numbered part is an ellipsis or the button of its own
      page, active exactly on the current page and never disabled. */
  predicate OnlyPageButtons(cs: seq<Control>, page: int) {
    forall i :: 0 <= i < |cs| ==> cs[i].Dots? || (cs[i].Button? && cs[i] == Numbered(cs[i].target, page))
  }

  /** An ellipsis sits between two numbered buttons whose pages are not
      adjacent. */
  predicate DotsMarkGaps(cs: seq<Control>) {
    forall i :: 0 <= i < |cs| && cs[i].Dots? ==>
      0 < i < |cs| - 1 && IsNumbered(cs[i - 1]) && IsNumbered(cs[i + 1])
      && cs[i - 1].target + 1 < cs[i + 1].target
  }

  /** Two numbered buttons side by side are for adjacent pages. */
  predicate NoHiddenGaps(cs: seq<Control>) {
    forall i :: 0 <= i < |cs| - 1 && IsNumbered(cs[i]) && IsNumbered(cs[i + 1]) ==>
      cs[i + 1].target == cs[i].target + 1
  }

  lemma {:induction false} RenderNumbers(ns: seq<int>, page: int)
    ensures Numbers(Render(ns, page)) == ns
    decreases |ns|
  {
    if |ns| == 1 {
      assert Numbers([Numbered(ns[0], page)]) == [ns[0]] + Numbers([]);
    } else if |ns| > 1 {
      var gap: seq<Control> := if ns[0] + 1 < ns[1] then [Dots] else [];
      RenderNumbers(ns[1..], page);
      NumbersConcat([Numbered(ns[0], page)] + gap, Render(ns[1..], page));
      NumbersConcat([Numbered(ns[0], page)], gap);
      assert Numbers([Numbered(ns[0], page)]) == [ns[0]] + Numbers([]);
      assert Numbers(gap) == [] by {
        if gap != [] {
          assert Numbers(gap) == [] + Numbers([]);
        }
      }
    }
  }

  /** Putting a numbered button, and an ellipsis when the next page is not
      adjacent, in front of a well-shaped run keeps its shape. */
  lemma ConsOnlyButtons(n: int, gap: seq<Control>, rest: seq<Control>, page: int)
    requires gap == [] || gap == [Dots]
    requires OnlyPageButtons(rest, page)
    ensures OnlyPageButtons([Numbered(n, page)] + gap + rest, page)
  {
    var r := [Numbered(n, page)] + gap + rest;
    assert forall i :: |gap| < i < |r| ==> r[i] == rest[i - 1 - |gap|];
  }

  lemma ConsDotsMarkGaps(n: int, m: int, rest: seq<Control>, page: int)
    requires |rest| > 0 && rest[0] == Numbered(m, page)
    requires DotsMarkGaps(rest)
    ensures DotsMarkGaps([Numbered(n, page)] + (if n + 1 < m then [Dots] else []) + rest)
  {
    var gap: seq<Control> := if n + 1 < m then [Dots] else [];
    var g := |gap|;
    var r := [Numbered(n, page)] + gap + rest;
    assert forall i :: g < i < |r| ==> r[i] == rest[i - 1 - g];
    forall i | 0 <= i < |r| && r[i].Dots?
      ensures 0 < i < |r| - 1 && IsNumbered(r[i - 1]) && IsNumbered(r[i + 1])
      ensures r[i - 1].target + 1 < r[i + 1].target
    {
      if i > g {
        assert rest[i - 1 - g].Dots?;
      }
    }
  }

  lemma ConsNoHiddenGaps(n: int, m: int, rest: seq<Control>, page: int)
    requires |rest| > 0 && rest[0] == Numbered(m, page) && n < m
    requires NoHiddenGaps(rest)
    ensures NoHiddenGaps([Numbered(n, page)] + (if n + 1 < m then [Dots] else []) + rest)
  {
    var gap: seq<Control> := if n + 1 < m then [Dots] else [];
    var g := |gap|;
    var r := [Numbered(n, page)] + gap + rest;
    assert forall i :: g < i < |r| ==> r[i] == rest[i - 1 - g];
    forall i | 0 <= i < |r| - 1 && IsNumbered(r[i]) && IsNumbered(r[i + 1])
      ensures r[i + 1].target == r[i].target + 1
    {
      if i > g {
        assert r[i] == rest[i - 1 - g];
      }
    }
  }

  /** The reference rendering of ascending pages puts an ellipsis exactly
      where pages are skipped. */
  lemma {:induction false} RenderShape(ns: seq<int>, page: int)
    requires StrictlyAscending(ns)
    ensures OnlyPageButtons(Render(ns, page), page)
    ensures DotsMarkGaps(Render(ns, page))
    ensures NoHiddenGaps(Render(ns, page))
    ensures ns != [] ==> |Render(ns, page)| > 0 && Render(ns, page)[0] == Numbered(ns[0], page)
    decreases |ns|
  {
    if |ns| > 1 {
      var rest := Render(ns[1..], page);
      var gap: seq<Control> := if ns[0] + 1 < ns[1] then [Dots] else [];
      RenderShape(ns[1..], page);
      assert Render(ns, page) == [Numbered(ns[0], page)] + gap + rest;
      ConsOnlyButtons(ns[0], gap, rest, page);
      ConsDotsMarkGaps(ns[0], ns[1], rest, page);
      ConsNoHiddenGaps(ns[0], ns[1], rest, page);
    }
  }

  lemma {:induction false} WindowIsRange(lo: int, hi: int, page: int)
    ensures Window(lo, hi, page) == Render(Range(lo, hi), page)
    decreases hi - lo
  {
    if lo < hi {
      WindowIsRange(lo + 1, hi, page);
      assert Range(lo, hi)[1..] == Range(lo + 1, hi);
    }
  }

  /** Rendering two ascending runs one after the other renders each, with an
      ellipsis between them when they are not adjacent. */
  lemma {:induction false} RenderConcat(a: seq<int>, b: seq<int>, page: int)
    requires a != [] && b != []
    ensures Render(a + b, page)
      == Render(a, page) + (if a[|a| - 1] + 1 < b[0] then [Dots] else []) + Render(b, page)
    decreases |a|
  {
    var ab := a + b;
    assert ab[0] == a[0] && ab[1..] == a[1..] + b;
    var mid: seq<Control> := if a[|a| - 1] + 1 < b[0] then [Dots] else [];
    if |a| == 1 {
      assert ab[1] == b[0] && ab[1..] == b;
    } else {
      var head := [Numbered(a[0], page)] + (if a[0] + 1 < a[1] then [Dots] else []);
      assert ab[1] == a[1];
      assert a[1..][|a[1..]| - 1] == a[|a| - 1];
      RenderConcat(a[1..], b, page);
      assert Render(ab, page) == head + Render(a[1..] + b, page);
      assert Render(a, page) == head + Render(a[1..], page);
      ConcatAssoc(Render(a[1..], page), mid, Render(b, page));
      ConcatAssoc(head, Render(a[1..], page) + mid, Render(b, page));
      ConcatAssoc(head, Render(a[1..], page), mid);
    }
  }

  /** `renderPagination`'s numbered part is the reference rendering of the
      visible pages. */
  lemma LeadRendered(lo: int, hi: int, page: int)
    requires 1 <= lo <= hi
    ensures Render((if lo >= 2 then [1] else []) + Range(lo, hi), page) == Lead(lo, page) + Window(lo, hi, page)
  {
    WindowIsRange(lo, hi, page);
    if lo >= 2 {
      RenderConcat([1], Range(lo, hi), page);
    } else {
      assert [] + Range(lo, hi) == Range(lo, hi);
    }
  }

  lemma TrailRendered(ns: seq<int>, hi: int, totalPages: int, page: int)
    requires ns != [] && ns[|ns| - 1] == hi && hi <= totalPages
    ensures Render(ns + (if hi <= totalPages - 1 then [totalPages] else []), page)
      == Render(ns, page) + Trail(hi, totalPages, page)
  {
    if hi <= totalPages - 1 {
      RenderConcat(ns, [totalPages], page);
    } else {
      assert ns + [] == ns;
    }
  }

  lemma MiddleRendersShown(page: int, totalPages: int)
    ensures Middle(page, totalPages) == Render(Shown(page, totalPages), page)
  {
    var lo, hi := Max(1, page - 2), Min(totalPages, page + 2);
    if lo <= hi {
      var fw := (if lo >= 2 then [1] else []) + Range(lo, hi);
      LeadRendered(lo, hi, page);
      assert fw[|fw| - 1] == hi;
      TrailRendered(fw, hi, totalPages, page);
    }
  }

  lemma {:induction false} NoNumbers(cs: seq<Control>)
    requires forall i :: 0 <= i < |cs| ==> !IsNumbered(cs[i])
    ensures Numbers(cs) == []
    decreases |cs|
  {
    if cs != [] {
      NoNumbers(cs[1..]);
    }
  }

  /** The numbered part shows a button per visible page and an ellipsis
      exactly where pages are skipped. */
  lemma MiddleNumbers(page: int, totalPages: int)
    ensures Numbers(Middle(page, totalPages)) == Shown(page, totalPages)
  {
    MiddleRendersShown(page, totalPages);
    RenderNumbers(Shown(page, totalPages), page);
  }

  lemma MiddleShape(page: int, totalPages: int)
    ensures OnlyPageButtons(Middle(page, totalPages), page)
    ensures DotsMarkGaps(Middle(page, totalPages))
    ensures NoHiddenGaps(Middle(page, totalPages))
  {
    var ns := Shown(page, totalPages);
    MiddleRendersShown(page, totalPages);
    RenderShape(ns, page);
  }

  /** The numbered buttons of the whole bar are exactly the visible pages, in
      ascending order, so each page has at most one button. */
  lemma PaginationNumbers(total: int, page: int, totalPages: int)
    ensures totalPages <= 1 ==> Numbers(Pagination(total, page, totalPages)) == []
    ensures totalPages > 1 ==> Numbers(Pagination(total, page, totalPages)) == Shown(page, totalPages)
  {
    var cs := Pagination(total, page, totalPages);
    if totalPages <= 1 {
      NoNumbers(cs);
    } else {
      var m := Middle(page, totalPages);
      MiddleNumbers(page, totalPages);
      var pre := [Info(total, total != 1),
        PageButton(First, 1, page, page == 1), PageButton(Prev, page - 1, page, page == 1)];
      var post := [PageButton(Next, page + 1, page, page == totalPages),
        PageButton(Last, totalPages, page, page == totalPages)];
      assert cs == pre + m + post;
      NumbersConcat(pre + m, post);
      NumbersConcat(pre, m);
      NoNumbers(pre);
      NoNumbers(post);
    }
  }

  /** On a page inside the range, the bar offers the first page, the last
      page and the current one. */
  lemma CurrentPageShown(total: int, page: int, totalPages: int)
    requires 1 <= page <= totalPages && totalPages > 1
    ensures page in Numbers(Pagination(total, page, totalPages))
    ensures 1 in Numbers(Pagination(total, page, totalPages))
    ensures totalPages in Numbers(Pagination(total, page, totalPages))
  {
    PaginationNumbers(total, page, totalPages);
    assert Visible(page, page, totalPages) && Visible(1, page, totalPages) && Visible(totalPages, page, totalPages);
  }

  /** On a bar with more than one page, the current page has its numbered
      button, marked active, and every button marked active leads to the
      current page (that includes « on page 1 and » on the last page). */
  lemma CurrentPageActive(total: int, page: int, totalPages: int)
    requires 1 <= page <= totalPages && totalPages > 1
    ensures Numbered(page, page) in Pagination(total, page, totalPages)
    ensures Numbered(page, page).active
    ensures forall c :: c in Pagination(total, page, totalPages) && c.Button? && c.active ==> c.target == page
  {
    var cs := Pagination(total, page, totalPages);
    var m := Middle(page, totalPages);
    MiddleNumbers(page, totalPages);
    MiddleShape(page, totalPages);
    assert Visible(page, page, totalPages);
    NumberHasButton(m, page);
    assert m == cs[3..|cs| - 2];
    forall c | c in cs && c.Button? && c.active ensures c.target == page {
      var i :| 0 <= i < |cs| && cs[i] == c;
      if 3 <= i < |cs| - 2 {
        assert c == m[i - 3];
        assert c.caption.Number?;
      }
    }
  }

  /** A page listed by `Numbers` has its button in the sequence. */
  lemma {:induction false} NumberHasButton(cs: seq<Control>, p: int)
    requires p in Numbers(cs)
    ensures exists c :: c in cs && IsNumbered(c) && c.target == p
    decreases |cs|
  {
    if IsNumbered(cs[0]) && cs[0].target == p {
      assert cs[0] in cs;
    } else {
      NumberHasButton(cs[1..], p);
      var c :| c in cs[1..] && IsNumbered(c) && c.target == p;
      assert c in cs;
    }
  }

  /** A numbered button's page is among the bar's numbers. */
  lemma {:induction false} ButtonInNumbers(cs: seq<Control>, j: int)
    requires 0 <= j < |cs| && IsNumbered(cs[j])
    ensures cs[j].target in Numbers(cs)
    decreases j
  {
    if j > 0 {
      ButtonInNumbers(cs[1..], j - 1);
    }
  }

  /** Every enabled button of the bar leads to a page of at least 1, so a
      click never sends the list to page 0 or below. */
  lemma EnabledTargetsPositive(total: int, page: int, totalPages: int, k: int)
    requires page >= 1
    requires 0 <= k < |Pagination(total, page, totalPages)|
    requires Pagination(total, page, totalPages)[k].Button? && !Pagination(total, page, totalPages)[k].disabled
    ensures Pagination(total, page, totalPages)[k].target >= 1
  {
    var cs := Pagination(total, page, totalPages);
    if 3 <= k < |cs| - 2 {
      assert cs[k] == Middle(page, totalPages)[k - 3];
      MiddleTargetsPositive(page, totalPages, k - 3);
    }
  }

  /** Every button of the numbered part is for a page of at least 1. */
  lemma MiddleTargetsPositive(page: int, totalPages: int, j: int)
    requires 0 <= j < |Middle(page, totalPages)| && Middle(page, totalPages)[j].Button?
    ensures Middle(page, totalPages)[j].target >= 1
  {
    var m := Middle(page, totalPages);
    MiddleShape(page, totalPages);
    MiddleNumbers(page, totalPages);
    ButtonInNumbers(m, j);
    assert Visible(m[j].target, page, totalPages);
  }

  // ── Sorting ───────────────────────────────────────────────────────────────

  /** A click on a sortable header: the sorted column flips direction, any
      other column becomes the sort ascending; the list goes back to page 1.
      Search, filters and page size are kept. */
  function ClickSort(s: State, col: string): (r: State)
    ensures r.page == 1 && r.sort == col
    ensures r.order == "ASC" || r.order == "DESC"
    ensures s.sort != col ==> r.order == "ASC"
    ensures s.sort == col && s.order == "ASC" ==> r.order == "DESC"
    ensures s.sort == col && s.order != "ASC" ==> r.order == "ASC"
    ensures r.limit == s.limit && r.search == s.search && r.course == s.course && r.status == s.status
  {
    if s.sort == col then
      s.(order := if s.order == "ASC" then "DESC" else "ASC", page := 1)
    else
      s.(sort := col, order := "ASC", page := 1)
  }

  /** Clicking the same header twice restores the direction; a fresh column
      clicked twice ends up descending. */
  lemma ClickSortTwice(s: State, col: string)
    ensures s.sort == col && (s.order == "ASC" || s.order == "DESC") ==> ClickSort(ClickSort(s, col), col).order == s.order
    ensures s.sort != col ==> ClickSort(ClickSort(s, col), col).order == "DESC"
  {
  }

  /** The direction the client sends is the one the list route sorts by. */
  lemma ClickSortDirection(s: State, col: string)
    ensures SafeOrder(ClickSort(s, col).order) == (if ClickSort(s, col).order == "DESC" then Desc else Asc)
  {
    SafeOrderRoundTrip(Asc);
    SafeOrderRoundTrip(Desc);
  }

  // ── Filters ───────────────────────────────────────────────────────────────

  /** A change to one of the filter controls; the search box is read trimmed,
      the page-size select through `parseInt`. */
  datatype FilterChange = Search(raw: string) | Course(course: string) | Status(status: string) | Limit(limit: int)

  /** Every filter change sends the list back to page 1 and touches only its
      own field. */
  function ApplyFilter(s: State, c: FilterChange): (r: State)
    ensures r.page == 1
    ensures r.sort == s.sort && r.order == s.order
    ensures r.search == (if c.Search? then Trim(c.raw) else s.search)
    ensures r.course == (if c.Course? then c.course else s.course)
    ensures r.status == (if c.Status? then c.status else s.status)
    ensures r.limit == (if c.Limit? then c.limit else s.limit)
  {
    match c
    case Search(raw) => s.(search := Trim(raw), page := 1)
    case Course(v) => s.(course := v, page := 1)
    case Status(v) => s.(status := v, page := 1)
    case Limit(n) => s.(limit := n, page := 1)
  }

  /** Typing the same search again, padded or not, lands on the same state. */
  lemma SearchTrimIdempotent(s: State, raw: string)
    ensures ApplyFilter(ApplyFilter(s, Search(raw)), Search(Trim(raw))) == ApplyFilter(s, Search(raw))
  {
    TrimIdempotent(raw);
  }

  // ── Delete ────────────────────────────────────────────────────────────────

  /** After a successful delete the list steps back one page, unless it is on
      page 1 (or below). */
  function AfterDelete(s: State): (r: State)
    ensures s.page > 1 ==> r.page == s.page - 1
    ensures s.page <= 1 ==> r.page == s.page
    ensures s.page >= 1 ==> r.page >= 1
    ensures r.(page := s.page) == s
  {
    if s.page > 1 then s.(page := s.page - 1) else s
  }

  // ── The state machine ─────────────────────────────────────────────────────

  /** What the user can do to the list: click a header, change a filter,
      delete a student, or click control `k` of the bar rendered for a
      response with `total` records over `totalPages` pages. */
  datatype Event =
    | SortClick(col: string)
    | FilterEdit(change: FilterChange)
    | Deleted
    | BarClick(total: int, totalPages: int, k: int)

  /** A click on the bar: an enabled button sets the page to its own; a
      disabled button, the label or an ellipsis does nothing. */
  function ClickBar(s: State, total: int, totalPages: int, k: int): (r: State)
    ensures r.(page := s.page) == s
    ensures s.page >= 1 ==> r.page >= 1
    ensures var cs := Pagination(total, s.page, totalPages);
      if 0 <= k < |cs| && cs[k].Button? && !cs[k].disabled then r.page == cs[k].target else r == s
  {
    var cs := Pagination(total, s.page, totalPages);
    if 0 <= k < |cs| && cs[k].Button? && !cs[k].disabled then
      assert s.page >= 1 ==> cs[k].target >= 1 by {
        if s.page >= 1 {
          EnabledTargetsPositive(total, s.page, totalPages, k);
        }
      }
      s.(page := cs[k].target)
    else s
  }

  function Step(s: State, e: Event): State {
    match e
    case SortClick(col) => ClickSort(s, col)
    case FilterEdit(c) => ApplyFilter(s, c)
    case Deleted => AfterDelete(s)
    case BarClick(total, totalPages, k) => ClickBar(s, total, totalPages, k)
  }

  /** What every request the client sends satisfies: a page of at least 1
      and one of the two directions. */
  predicate Inv(s: State) {
    s.page >= 1 && (s.order == "ASC" || s.order == "DESC")
  }

  function Replay(s: State, es: seq<Event>): State
    decreases |es|
  {
    if es == [] then s else Replay(Step(s, es[0]), es[1..])
  }

  /** From the initial state, whatever the user does, the page stays at 1 or
      above and the direction is ASC or DESC. */
  lemma {:induction false} ReplayKeepsInv(s: State, es: seq<Event>)
    requires Inv(s)
    ensures Inv(Replay(s, es))
    decreases |es|
  {
    if es != [] {
      ReplayKeepsInv(Step(s, es[0]), es[1..]);
    }
  }

  lemma InitialInv()
    ensures Inv(Initial)
  {
  }

  // ── Field errors ──────────────────────────────────────────────────────────

  datatype Field = NameField | EmailField | CourseField

  /** The field a message belongs to: the first of name, email and course that
      the lower-cased message contains. */
  function FieldFor(msg: string): (f: Option<Field>)
    ensures f == Some(NameField) <==> ContainsIgnoreCase(msg, "name")
    ensures f == Some(EmailField) <==> !ContainsIgnoreCase(msg, "name") && ContainsIgnoreCase(msg, "email")
    ensures f == Some(CourseField) <==>
      !ContainsIgnoreCase(msg, "name") && !ContainsIgnoreCase(msg, "email") && ContainsIgnoreCase(msg, "course")
  {
    if ContainsIgnoreCase(msg, "name") then Some(NameField)
    else if ContainsIgnoreCase(msg, "email") then Some(EmailField)
    else if ContainsIgnoreCase(msg, "course") then Some(CourseField)
    else None
  }

  /** The routing is `msg.toLowerCase().includes(word)` for each word in turn. */
  lemma FieldForIsLowercaseIncludes(msg: string)
    ensures FieldFor(msg) ==
      if Contains(Lower(msg), "name") then Some(NameField)
      else if Contains(Lower(msg), "email") then Some(EmailField)
      else if Contains(Lower(msg), "course") then Some(CourseField)
      else None
  {
    LowerCaseWords();
    ContainsIgnoreCaseIsLoweredContains(msg, "name");
    ContainsIgnoreCaseIsLoweredContains(msg, "email");
    ContainsIgnoreCaseIsLoweredContains(msg, "course");
  }

  lemma LowerCaseWords()
    ensures Lower("name") == "name" && Lower("email") == "email" && Lower("course") == "course"
  {
    assert Lower("name") == "name";
    assert Lower("email") == "email";
    assert Lower("course") == "course";
  }

  /** `setFieldErrors`: each message is written into the error slot of its
      field, so a later message for the same field overwrites an earlier one.
      The result maps each field that got a message to the message it shows. */
  function FieldErrors(errors: seq<string>): map<Field, string>
    decreases |errors|
  {
    if errors == [] then map[]
    else
      var m := FieldErrors(errors[..|errors| - 1]);
      var last := errors[|errors| - 1];
      match FieldFor(last)
      case None => m
      case Some(f) => m[f := last]
  }

  /** A field shows a message exactly when some message is routed to it, and
      then it shows the last such message. */
  lemma {:induction false} FieldErrorsShowLast(errors: seq<string>, f: Field)
    ensures f in FieldErrors(errors) <==> exists i :: 0 <= i < |errors| && FieldFor(errors[i]) == Some(f)
    ensures f in FieldErrors(errors) ==> exists i :: LastFor(errors, f, i) && FieldErrors(errors)[f] == errors[i]
    decreases |errors|
  {
    if errors != [] {
      var init := errors[..|errors| - 1];
      var last := errors[|errors| - 1];
      FieldErrorsShowLast(init, f);
      assert forall i :: 0 <= i < |init| ==> init[i] == errors[i];
      if FieldFor(last) == Some(f) {
        assert LastFor(errors, f, |errors| - 1);
      } else {
        assert f in FieldErrors(errors) <==> f in FieldErrors(init);
        if f in FieldErrors(init) {
          var i :| LastFor(init, f, i) && FieldErrors(init)[f] == init[i];
          assert LastFor(errors, f, i);
        }
        if exists i :: 0 <= i < |errors| && FieldFor(errors[i]) == Some(f) {
          var i :| 0 <= i < |errors| && FieldFor(errors[i]) == Some(f);
          assert i < |init|;
        }
      }
    }
  }

  /** `errors[i]` is the last message routed to `f`. */
  predicate LastFor(errors: seq<string>, f: Field, i: int) {
    0 <= i < |errors| && FieldFor(errors[i]) == Some(f)
    && forall j :: i < j < |errors| ==> FieldFor(errors[j]) != Some(f)
  }

  /** "Name is required" is shown under the name field. */
  lemma RouteNameRequired()
    ensures FieldFor(NameRequired) == Some(NameField)
  {
    var h := NameRequired;
    assert FoldedMatch(h, "name", 0, 4);
    assert FoldedMatch(h, "name", 0, 3);
    assert FoldedMatch(h, "name", 0, 2);
    assert FoldedMatch(h, "name", 0, 1);
    assert FoldedMatch(h, "name", 0, 0);
    FoldedScanReaches(h, "name", 0, 0);
  }

  /** "Email is required" is shown under the email field. */
  lemma RouteEmailRequired()
    ensures FieldFor(EmailRequired) == Some(EmailField)
  {
    var h := EmailRequired;
    assert !FoldedScan(h, "name", 14);
    assert !FoldedScan(h, "name", 13);
    assert !FoldedScan(h, "name", 12);
    assert !FoldedScan(h, "name", 11);
    assert !FoldedScan(h, "name", 10);
    assert !FoldedScan(h, "name", 9);
    assert !FoldedScan(h, "name", 8);
    assert !FoldedScan(h, "name", 7);
    assert !FoldedScan(h, "name", 6);
    assert !FoldedScan(h, "name", 5);
    assert !FoldedScan(h, "name", 4);
    assert !FoldedScan(h, "name", 3);
    assert !FoldedScan(h, "name", 2);
    assert !FoldedScan(h, "name", 1);
    assert !FoldedScan(h, "name", 0);
    assert FoldedMatch(h, "email", 0, 5);
    assert FoldedMatch(h, "email", 0, 4);
    assert FoldedMatch(h, "email", 0, 3);
    assert FoldedMatch(h, "email", 0, 2);
    assert FoldedMatch(h, "email", 0, 1);
    assert FoldedMatch(h, "email", 0, 0);
    FoldedScanReaches(h, "email", 0, 0);
  }

  /** "Course is required" is shown under the course field. */
  lemma RouteCourseRequired()
    ensures FieldFor(CourseRequired) == Some(CourseField)
  {
    var h := CourseRequired;
    assert !FoldedScan(h, "name", 15);
    assert !FoldedScan(h, "name", 14);
    assert !FoldedScan(h, "name", 13);
    assert !FoldedScan(h, "name", 12);
    assert !FoldedScan(h, "name", 11);
    assert !FoldedScan(h, "name", 10);
    assert !FoldedScan(h, "name", 9);
    assert !FoldedScan(h, "name", 8);
    assert !FoldedScan(h, "name", 7);
    assert !FoldedScan(h, "name", 6);
    assert !FoldedScan(h, "name", 5);
    assert !FoldedScan(h, "name", 4);
    assert !FoldedScan(h, "name", 3);
    assert !FoldedScan(h, "name", 2);
    assert !FoldedScan(h, "name", 1);
    assert !FoldedScan(h, "name", 0);
    assert !FoldedScan(h, "email", 14);
    assert !FoldedScan(h, "email", 13);
    assert !FoldedScan(h, "email", 12);
    assert !FoldedMatch(h, "email", 11, 1);
    assert !FoldedScan(h, "email", 11);
    assert !FoldedScan(h, "email", 10);
    assert !FoldedScan(h, "email", 9);
    assert !FoldedScan(h, "email", 8);
    assert !FoldedScan(h, "email", 7);
    assert !FoldedScan(h, "email", 6);
    assert !FoldedMatch(h, "email", 5, 1);
    assert !FoldedScan(h, "email", 5);
    assert !FoldedScan(h, "email", 4);
    assert !FoldedScan(h, "email", 3);
    assert !FoldedScan(h, "email", 2);
    assert !FoldedScan(h, "email", 1);
    assert !FoldedScan(h, "email", 0);
    assert FoldedMatch(h, "course", 0, 6);
    assert FoldedMatch(h, "course", 0, 5);
    assert FoldedMatch(h, "course", 0, 4);
    assert FoldedMatch(h, "course", 0, 3);
    assert FoldedMatch(h, "course", 0, 2);
    assert FoldedMatch(h, "course", 0, 1);
    assert FoldedMatch(h, "course", 0, 0);
    FoldedScanReaches(h, "course", 0, 0);
  }

  /** "Invalid email format" is shown under the email field. */
  lemma RouteInvalidEmail()
    ensures FieldFor(InvalidEmail) == Some(EmailField)
  {
    var h := InvalidEmail;
    assert !FoldedScan(h, "name", 17);
    assert !FoldedScan(h, "name", 16);
    assert !FoldedScan(h, "name", 15);
    assert !FoldedScan(h, "name", 14);
    assert !FoldedScan(h, "name", 13);
    assert !FoldedScan(h, "name", 12);
    assert !FoldedScan(h, "name", 11);
    assert !FoldedScan(h, "name", 10);
    assert !FoldedScan(h, "name", 9);
    assert !FoldedScan(h, "name", 8);
    assert !FoldedScan(h, "name", 7);
    assert !FoldedScan(h, "name", 6);
    assert !FoldedScan(h, "name", 5);
    assert !FoldedScan(h, "name", 4);
    assert !FoldedScan(h, "name", 3);
    assert !FoldedScan(h, "name", 2);
    assert !FoldedMatch(h, "name", 1, 1);
    assert !FoldedScan(h, "name", 1);
    assert !FoldedScan(h, "name", 0);
    assert FoldedMatch(h, "email", 8, 5);
    assert FoldedMatch(h, "email", 8, 4);
    assert FoldedMatch(h, "email", 8, 3);
    assert FoldedMatch(h, "email", 8, 2);
    assert FoldedMatch(h, "email", 8, 1);
    assert FoldedMatch(h, "email", 8, 0);
    FoldedScanReaches(h, "email", 0, 8);
  }

  /** Each message `validate` can produce goes to its own field. */
  lemma RouteValidation(errs: seq<string>, i: int)
    requires forall k :: 0 <= k < |errs| ==> Rank(errs[k]) < 4
    requires 0 <= i < |errs|
    ensures errs[i] == NameRequired ==> FieldFor(errs[i]) == Some(NameField)
    ensures errs[i] == CourseRequired ==> FieldFor(errs[i]) == Some(CourseField)
    ensures errs[i] == EmailRequired || errs[i] == InvalidEmail ==> FieldFor(errs[i]) == Some(EmailField)
    ensures errs[i] == NameRequired || errs[i] == CourseRequired || errs[i] == EmailRequired || errs[i] == InvalidEmail
  {
    assert Rank(errs[i]) < 4;
    RouteNameRequired();
    RouteEmailRequired();
    RouteCourseRequired();
    RouteInvalidEmail();
  }

  /** Each message of `errs` is routed to the field it is about. */
  predicate RoutedByMessage(errs: seq<string>) {
    forall i :: 0 <= i < |errs| ==>
      && (errs[i] == NameRequired <==> FieldFor(errs[i]) == Some(NameField))
      && (errs[i] == CourseRequired <==> FieldFor(errs[i]) == Some(CourseField))
      && (errs[i] == EmailRequired || errs[i] == InvalidEmail <==> FieldFor(errs[i]) == Some(EmailField))
  }

  lemma RankedIsRouted(errs: seq<string>)
    requires RankedBelow(errs, 4)
    ensures RoutedByMessage(errs)
  {
    forall i | 0 <= i < |errs|
      ensures errs[i] == NameRequired <==> FieldFor(errs[i]) == Some(NameField)
      ensures errs[i] == CourseRequired <==> FieldFor(errs[i]) == Some(CourseField)
      ensures errs[i] == EmailRequired || errs[i] == InvalidEmail <==> FieldFor(errs[i]) == Some(EmailField)
    {
      RouteValidation(errs, i);
    }
  }

  /** Of the two e-mail messages, the later one is the last routed to e-mail. */
  lemma LastEmailMessage(errs: seq<string>, i: int, k: int)
    requires RankedBelow(errs, 4) && RoutedByMessage(errs)
    requires LastFor(errs, EmailField, i) && 0 <= k < |errs| && errs[k] == InvalidEmail
    ensures errs[i] == InvalidEmail
  {
    assert FieldFor(errs[k]) == Some(EmailField);
    assert k <= i;
  }

  /** Messages in `validate`'s order reach their fields; of the two e-mail
      messages the later one, "Invalid email format", is the one shown. */
  lemma RankedErrorsReachFields(errs: seq<string>)
    requires RankedBelow(errs, 4)
    ensures NameField in FieldErrors(errs) <==> NameRequired in errs
    ensures CourseField in FieldErrors(errs) <==> CourseRequired in errs
    ensures EmailField in FieldErrors(errs) <==> EmailRequired in errs || InvalidEmail in errs
    ensures EmailField in FieldErrors(errs) ==>
      FieldErrors(errs)[EmailField] == if InvalidEmail in errs then InvalidEmail else EmailRequired
  {
    var m := FieldErrors(errs);
    RankedIsRouted(errs);
    FieldErrorsShowLast(errs, NameField);
    FieldErrorsShowLast(errs, EmailField);
    FieldErrorsShowLast(errs, CourseField);
    if EmailField in m {
      var i :| LastFor(errs, EmailField, i) && m[EmailField] == errs[i];
      if InvalidEmail in errs {
        var k :| 0 <= k < |errs| && errs[k] == InvalidEmail;
        LastEmailMessage(errs, i, k);
      }
    }
  }

  /** The messages of `validate` reach their fields: a failed check marks
      exactly its own field, and a whitespace-only e-mail, which fails both
      e-mail checks, shows "Invalid email format". */
  lemma ValidationErrorsReachFields(b: Body)
    ensures NameField in FieldErrors(Validate(b)) <==> NameRequired in Validate(b)
    ensures CourseField in FieldErrors(Validate(b)) <==> CourseRequired in Validate(b)
    ensures EmailField in FieldErrors(Validate(b)) <==> EmailRequired in Validate(b) || InvalidEmail in Validate(b)
    ensures EmailField in FieldErrors(Validate(b)) ==>
      FieldErrors(Validate(b))[EmailField] == if InvalidEmail in Validate(b) then InvalidEmail else EmailRequired
  {
    RankedErrorsReachFields(Validate(b));
  }
}

# Student management: a verified model of the record store, its routes and the list page

The system is a small Express application that keeps student records in an
SQLite database (through sql.js) and serves a single-page front end. This
project models its core logic as immutable data and pure functions and proves
properties of them in Dafny:

- **The `students` table** (`database.js`), in module `Store` (database.dfy).
  The schema's invariants: a UNIQUE, non-null e-mail, AUTOINCREMENT ids and
  column defaults. The `run` / `queryOne` result contract. `createSchema`,
  `seedIfEmpty` and `initDB`.
- **The list route** (`GET /api/students` of `routes/students.js`), in module
  `StudentQueries` (students_list.dfy). The allow-listed sort column and
  direction, the search / course / status filter with SQLite `LIKE` semantics,
  `ORDER BY`, `LIMIT ? OFFSET ?` and `totalPages`.
- **The statistics route** (`GET /api/students/stats`), in module
  `StudentStats` (students_stats.dfy).
- **`validate` and the single-record routes** (`GET`, `POST`, `PUT`, `DELETE`),
  in module `StudentRoutes` (students_crud.dfy). Each route is a function from
  the database state and the request to the response and the next state. A
  request history (`Serve`) shows that ids are never reused.
- **Authentication** (`routes/auth.js`), in module `Auth` (auth.dfy).
  - Covers login, `/me`, change-password and the `requireAuth` middleware.
  - bcrypt and the JWT library are opaque functions passed in as a `Crypto`
    value.
- **The browser's list state** (`public/js/app.js`), in module `Client`
  (client.dfy).
  - Covers `renderPagination`, the sort-header toggle, the filter handlers and
    the page step after a delete.
  - Also covers `setFieldErrors`, which routes validation messages to form
    fields.

**Supporting modules**
- `Common` holds `Option`, `Result`, `Min` and `Max`.
- `Http` holds the response kinds and their status codes.
- `Text` models JavaScript's `trim`, `\s`, case mapping, `includes`, UTF-16
  `length` and the e-mail regular expression.
- `SqlLike` models SQLite's `LIKE`.
- `Ordering` models the `ORDER BY` order and a sort that is proved sorted and
  a permutation.

**Responses and state**
- Every response is a `Response<T>`: `Ok`, `Created`, `Invalid(errors)`,
  `BadRequest`, `Unauthorized`, `NotFound`, `Conflict` or `ServerError`.
- A handler that writes returns a `Reply(response, state)`.
- The database is `Db(table, lastInsertRowid)`. A `Table` is the rows in
  rowid order together with the `sqlite_sequence` high-water mark.

**Pagination reference**
- `renderPagination` is modelled as written (`Pagination`, `Middle`) and
  checked against an independent reference.
- The reference is the set of visible pages (`Visible`, `Shown`) together with
  a rendering that puts an ellipsis exactly where pages are skipped (`Render`).

## Model

| member | source | states |
|---|---|---|
| Text.Trim | routes/students.js:8-10 | The result is the input without its leading and trailing ECMAScript whitespace: it is empty exactly when the input is all whitespace, and an input without whitespace is returned as is |
| Text.TrimIdempotent | public/js/app.js:247 | Trimming twice gives the same text as trimming once |
| Text.EmailPatternShape | routes/students.js:11 | Text matching `^[^\s@]+@[^\s@]+\.[^\s@]+$` has no whitespace, so trimming leaves it unchanged, and it holds exactly one `@`, which is neither first nor last |
| Text.BlankIsNotEmail | routes/students.js:9-11 | A whitespace-only (or empty) e-mail never matches the pattern |
| Text.ContainsIgnoreCaseIsLoweredContains | public/js/app.js:404-406 | The case-folded substring scan agrees with lower-casing both strings and testing `includes` |
| SqlLike.LikeSurroundIsContains | routes/students.js:27-29 | For a search term without `%` or `_`, `h LIKE '%term%'` holds exactly when the term is a case-insensitive substring of `h` |
| Ordering.SortBy | routes/students.js:38-39 | The sorted rows are in `ORDER BY` order (ascending or descending) and are a permutation of the input |
| Store.HighWater | database.js:63 | The id AUTOINCREMENT counts from is at least `sqlite_sequence` and at least every id present |
| Store.CountIdUnique | database.js:63 | In a table whose ids ascend, at most one row has a given id |
| Store.RemoveId | routes/students.js:121 | Deleting by id keeps exactly the rows with another id, and the table shrinks by the number of rows that had it |
| Store.RemoveIdKeepsAscending | database.js:63 | Deleting rows keeps the survivors' ids ascending |
| Store.RemoveIdKeepsDistinct | database.js:65 | Deleting rows keeps the survivors' e-mails distinct |
| Store.SetFields | routes/students.js:102-106 | `UPDATE ... WHERE id=?` changes only the fields of the rows with that id; every id and creation time stays |
| Store.RunInsert | database.js:46-52 | An insert fails exactly when the e-mail is already stored. Otherwise it appends one row whose id is above every id ever handed out, and reports 1 change and that id as `lastInsertRowid`. The table invariant is kept |
| Store.RunUpdate | database.js:46-52 | An update fails exactly when the target row exists and another row holds the new e-mail. Otherwise it changes only the targeted rows' fields, reports their number and leaves `lastInsertRowid` alone. The invariant is kept |
| Store.RunDelete | database.js:46-52 | A delete never fails. It removes exactly the rows with the id, reports their number and leaves `sqlite_sequence` where it was. The invariant is kept |
| Store.Run | database.js:46-52 | Only inserts and updates can throw; a write keeps the invariant and never lowers `sqlite_sequence`, and the reported `lastInsertRowid` is the connection's |
| Store.QueryOne | database.js:41-43 | `queryOne` is `null` exactly on an empty result and otherwise its first row |
| Store.FindById | routes/students.js:64 | The lookup by id finds a row exactly when one has the id. It is that row, and it is the only one when ids ascend |
| Store.FindAppended | routes/students.js:82 | After an insert, the lookup of `lastInsertRowid` returns the inserted row |
| Store.FindUpdated | routes/students.js:107 | After an update, the lookup of the id returns a row carrying the new fields |
| Store.CreateSchema | database.js:60-75 | `CREATE TABLE IF NOT EXISTS` keeps an existing table with its rows and creates a missing one empty |
| Store.CreateSchemaIdempotent | database.js:61-62 | Creating the schema a second time changes nothing |
| Store.SampleEmailsDistinct | database.js:81-87 | The five sample students have pairwise different e-mails |
| Store.InsertAllFresh | database.js:89-95 | Inserting rows with fresh, pairwise distinct e-mails never fails. They are appended in order with consecutive ids above the high-water mark, which ends at the last of them. The k-th row carries the k-th insert's own clock reading |
| Store.InsertAllKeepsValid | database.js:89-95 | A batch of inserts that succeeds keeps the table invariant |
| Store.SeedIfEmpty | database.js:77-96 | A non-empty table is left as it is. An empty one receives exactly the five samples, in order, with the next five ids; each carries the `created_at` its own insert read from the clock. The invariant is kept |
| Store.InitDb | database.js:15-28 | Start-up never fails and always leaves rows. A stored non-empty table is kept as is; a fresh database holds the five samples with ids 1 to 5, each with its own insert's time stamp. The result satisfies the invariant |
| Store.InitIdempotent | database.js:77-79 | Initialising again from the image a first start-up left behind gives the same table |
| StudentQueries.SafeSort | routes/students.js:19-21 | A sort name on the allow-list selects its own column (exact, case-sensitive match); anything else selects `id` |
| StudentQueries.SafeSortRoundTrip | routes/students.js:19-21 | Every column's name is on the allow-list and selects that column |
| StudentQueries.SafeOrder | routes/students.js:20-22 | The direction is descending exactly when the upper-cased text is `DESC`; otherwise it is ascending |
| StudentQueries.SafeOrderRoundTrip | routes/students.js:20-22 | `ASC` and `DESC` select their direction, and so do their lower-case spellings |
| StudentQueries.SearchHitIsSubstring | routes/students.js:27-29 | For a term without wildcards, the search clause holds exactly when the term is a case-insensitive substring of the name, the e-mail or the phone |
| StudentQueries.Filter | routes/students.js:24-34 | The WHERE clause keeps exactly the rows that match every non-empty filter. With no filter set, every row is kept |
| StudentQueries.FilterCounts | routes/students.js:24-35 | The WHERE clause keeps each matching record as often as it occurs in the table and drops every other, so the `COUNT(*)` behind `total` counts exactly the matching records |
| StudentQueries.Ordered | routes/students.js:38-39 | The matches are sorted by the allow-listed column and direction and are a permutation of the filtered rows |
| StudentQueries.Offset | routes/students.js:36 | The offset is 0 for page 1 and below, and never negative for a non-negative limit |
| StudentQueries.OffsetOfPage | routes/students.js:36 | For a page of at least 1 the offset is `(page - 1) * limit` |
| StudentQueries.LimitOffset | routes/students.js:38-41 | `LIMIT/OFFSET` returns at most `limit` rows, each at its offset position in the input; a negative offset counts as 0 and a negative limit means no limit |
| StudentQueries.CeilDiv | routes/students.js:48 | `Math.ceil(total / limit)` is the least page count covering `total` for a positive limit, is `null` for a zero limit, and is bracketed likewise for a negative one |
| StudentQueries.OrderedWindow | routes/students.js:38-41 | The rows of any page are sorted and are matching rows of the table |
| StudentQueries.List | routes/students.js:16-49 | The listing's `total` is the number of matches and does not depend on page or limit. `page` and `limit` are echoed. `totalPages` is `ceil(total / limit)`. `data` holds only matching rows in the requested order, at most `limit` of them, and exactly the page-sized remainder from the offset |
| StudentQueries.PagesAreSlices | routes/students.js:36-41 | With a positive limit, page `p` shows the `limit` positions of one page-independent ordering that start at `p`'s offset (ties broken by rowid on every request) |
| StudentQueries.PageWithinTotal | routes/students.js:48 | Every position of the result lies on a page between 1 and `totalPages` |
| StudentQueries.ListedOnItsPage | routes/students.js:36-41 | With a positive limit, each matching row appears on the page that its position gives (ties broken by rowid on every request) |
| StudentQueries.EveryMatchOnItsPage | routes/students.js:35-48 | With a positive limit, each match is listed on a page between 1 and `totalPages` (ties broken by rowid on every request) |
| StudentStats.CountStatus | routes/students.js:55-56 | The status count is the number of rows whose status is exactly the given one: its multiplicity in the status column. So it is 0 exactly when no row has the status, and the row count exactly when all do |
| StudentStats.StatusCountsDisjoint | routes/students.js:55-56 | Active plus inactive never exceeds the total |
| StudentStats.Grades | routes/students.js:58 | The WHERE clause keeps every non-empty grade as often as the grade column holds it, and drops the empty one |
| StudentStats.Group | routes/students.js:57-58 | `GROUP BY` yields each distinct key once, with its number of occurrences, and the counts add up to the number of keys |
| StudentStats.BumpTallies | routes/students.js:57-58 | Counting one more key keeps a grouping a grouping and adds one to its sum |
| StudentStats.TalliesPerm | routes/students.js:57-58 | Reordering a grouped result (the `ORDER BY`) keeps it a grouping of the same keys with the same sum |
| StudentStats.CourseTally | routes/students.js:57 | Each course appears once with its number of students. Counts are in descending order and add up to the number of students |
| StudentStats.GradeTally | routes/students.js:58 | Each non-empty grade appears once with its count, in strictly ascending BINARY order; the counts add up to the number of non-empty grades |
| StudentStats.GetStats | routes/students.js:53-60 | `total` is the row count. `active` and `inactive` are exact status counts that together stay within `total`. The per-course counts add up to `total`. There are no more courses than students. `courses` is the per-course grouping in descending count order, and `grades` is the grouping of the non-empty grades in ascending order |
| StudentRoutes.Validate | routes/students.js:6-13 | Each of the four messages is present exactly when its check fails: missing or whitespace-only for the three required fields; present, non-empty and not matching the pattern for the e-mail format. Messages come in check order, each at most once |
| StudentRoutes.ValidateAccepts | routes/students.js:6-13 | A body passes exactly when name, course and e-mail are present and not blank and the e-mail matches the pattern; the accepted e-mail is already trimmed |
| StudentRoutes.BlankEmailTwoErrors | routes/students.js:9-11 | A whitespace-only e-mail gets both "Email is required" and "Invalid email format" |
| StudentRoutes.ToFields | routes/students.js:74 | Name, e-mail, phone, course, grade and address are trimmed. `dob` and `status` are stored as sent. Absent optional fields default to `''`, and `status` defaults to `Active` |
| StudentRoutes.Get | routes/students.js:62-67 | 200 with the row exactly when a row has the id, otherwise 404 "Student not found" |
| StudentRoutes.InsertStudent | routes/students.js:76-87 | 409 "Email already exists" with the database unchanged exactly when the e-mail is taken. Otherwise 201 with the stored row, which is appended with a fresh id |
| StudentRoutes.Create | routes/students.js:70-88 | Invalid input gives 400 with the messages and an unchanged database. Otherwise a taken (trimmed) e-mail gives 409 and an unchanged database. Otherwise the answer is 201 and exactly one row is appended, carrying the trimmed and defaulted fields and an id above every id handed out. Each status occurs exactly in its own case. The table invariant is kept |
| StudentRoutes.UpdateStudent | routes/students.js:101-112 | 409 with an unchanged database exactly when another row holds the e-mail. Otherwise 200 with the row, and only that row's fields change |
| StudentRoutes.Update | routes/students.js:91-113 | An unknown id gives 404 before validation, then invalid input gives 400, then an e-mail held by a different row gives 409, each leaving the database unchanged. Each status occurs exactly in its own case, so an existing id with valid input and a free e-mail always gets 200. On success only that row's eight fields change; ids, creation times, the other rows and `sqlite_sequence` stay |
| StudentRoutes.Delete | routes/students.js:116-123 | An unknown id gives 404 with the database unchanged. Otherwise the answer is "Student deleted successfully": the rows with the id are removed and every other row is kept. In a valid table that is exactly one row. `sqlite_sequence` stays |
| StudentRoutes.Handle | routes/students.js:70-123 | One write request keeps the invariant and never lowers `sqlite_sequence`. A created id is the new `sqlite_sequence` and is above the old one |
| StudentRoutes.IdsNeverReused | database.js:63 | Over any sequence of requests from a valid table, the table stays valid and the created ids strictly increase. Each created id is above every id that existed before, so a deleted id is never handed out again |
| Auth.FindByUsername | routes/auth.js:17 | The lookup finds a user exactly when some user has that exact name, and returns the first such user in rowid order |
| Auth.FindUser | routes/auth.js:48 | The lookup by id finds a user exactly when some user has the id, and returns the first such user |
| Auth.Authenticate | routes/auth.js:17-32 | Login succeeds exactly when the first user with that name exists and the password matches its hash. Unknown name and wrong password give the same 401 "Invalid username or password". On success the token signs exactly {id, username, role}, the same claims are returned, and there is no hash |
| Auth.Login | routes/auth.js:11-33 | A missing or empty username or password gives 400 before any lookup; otherwise the outcome is that of authenticating the trimmed username |
| Auth.LoginTrimsUsername | routes/auth.js:17 | Surrounding whitespace in the username does not change the outcome |
| Auth.RequireAuth | routes/auth.js:58-70 | An absent header, or one not starting with the exact text `Bearer `, gives "Authentication required". Otherwise the token is the rest of the header: a token that fails to verify gives "Invalid or expired token", and one that verifies passes on the decoded claims |
| Auth.BearerRoundTrip | routes/auth.js:60-65 | A `Bearer ` header carries exactly its token to `verify` |
| Auth.SchemeIsCaseSensitive | routes/auth.js:60-61 | A lower-case `bearer ` scheme is refused as missing authentication |
| Auth.Protected | routes/auth.js:36-38 | A guarded handler runs only on verified claims; any failed check gives 401 with its message |
| Auth.Me | routes/auth.js:35-38 | `/me` returns exactly the verified claims, or 401 |
| Auth.LoginThenMe | routes/auth.js:22-37 | If `verify` inverts `sign`, the token a login returns opens `/me` with exactly the user's claims |
| Auth.SetPassword | routes/auth.js:52-53 | The update replaces the hash of exactly the users with the id; ids, names and roles stay |
| Auth.ChangePassword | routes/auth.js:41-55 | Checks run in order, each leaving the users unchanged when it fails: a missing field gives 400 "Both fields are required"; a new password under 6 UTF-16 units gives 400 before any lookup; a vanished user gives 500; a wrong current password gives 401 "Current password is incorrect", and only then. No other 400 message occurs. On success only the caller's hash is replaced, with the hash of the new password |
| Auth.ChangePasswordRoute | routes/auth.js:41-55 | The change-password route runs only behind `requireAuth` and uses the caller's verified id |
| Auth.SetPasswordKeepsLookup | routes/auth.js:53 | With distinct usernames, changing one user's hash keeps that user found first by name, with the new hash and the same claims |
| Auth.ChangeThenLogin | routes/auth.js:41-55 | With distinct usernames and a hash that accepts its own password, after a successful change, logging in as the same user with the new password succeeds and returns that user's claims and token. This holds for any username that trimming leaves unchanged and non-empty |
| Client.Pagination | public/js/app.js:188-221 | The bar always starts with the record count, pluralised unless it is 1, and has nothing else when `totalPages <= 1`. Otherwise it is «, ‹, the numbered part, ›, ». « and ‹ are disabled exactly on page 1, and › and » exactly on the last page |
| Client.Shown | public/js/app.js:210-217 | The reference page list is strictly ascending and holds exactly the visible pages. These are the pages of `1..totalPages` that are the first, the last or within two of the current page, as long as the current page lies no more than two outside that range |
| Client.WindowIsRange | public/js/app.js:211-212 | The loop's window is the contiguous range from `max(1, page-2)` to `min(totalPages, page+2)`, one button per page |
| Client.MiddleRendersShown | public/js/app.js:210-217 | The numbered part as written equals the reference rendering of the visible pages |
| Client.MiddleNumbers | public/js/app.js:210-217 | The pages of the numbered part are exactly the visible pages, ascending |
| Client.MiddleShape | public/js/app.js:213-217 | The numbered part has only enabled page buttons (active on the current page) and ellipses. An ellipsis sits exactly between two non-adjacent pages, and neighbouring buttons are adjacent pages |
| Client.RenderShape | public/js/app.js:213-217 | The reference rendering of ascending pages puts an ellipsis exactly where pages are skipped |
| Client.PaginationNumbers | public/js/app.js:196-217 | The bar's numbered buttons are none when `totalPages <= 1` and otherwise exactly the visible pages in ascending order, so no page has two buttons |
| Client.CurrentPageShown | public/js/app.js:210-217 | On a page inside the range, the bar offers the current page, page 1 and the last page |
| Client.CurrentPageActive | public/js/app.js:198-217 | On a bar with more than one page, the current page has its numbered button, marked active. Every button marked active leads to the current page, which includes « on page 1 and » on the last page |
| Client.EnabledTargetsPositive | public/js/app.js:203 | Every enabled button leads to a page of at least 1 |
| Client.ClickBar | public/js/app.js:203 | Clicking an enabled button sets the page to that button's page and changes nothing else. A click on a disabled button, the label or an ellipsis changes nothing. A page of at least 1 stays at least 1 |
| Client.ClickSort | public/js/app.js:224-233 | Clicking the sorted column flips between ASC and DESC, and clicking another column sorts it ASC. Either way the page resets to 1 and search, filters and page size stay |
| Client.ClickSortTwice | public/js/app.js:227-232 | Two clicks on the sorted column restore its direction; two clicks on a new column leave it descending |
| Client.ClickSortDirection | public/js/app.js:228 | The direction the client sends is the one the list route sorts by |
| Client.ApplyFilter | public/js/app.js:244-261 | Any change to search, course, status or page size sets page 1 and changes only its own field; the search text is trimmed |
| Client.SearchTrimIdempotent | public/js/app.js:247 | Re-entering the trimmed search gives the same state |
| Client.AfterDelete | public/js/app.js:377 | After a delete the page steps back by one only when it was above 1, so it stays at least 1; nothing else changes |
| Client.ReplayKeepsInv | public/js/app.js:8-16 | Whatever the user does from a state with page at least 1 and direction ASC or DESC, both stay true |
| Client.InitialInv | public/js/app.js:8-16 | The initial state is on page 1 and ascending |
| Client.FieldFor | public/js/app.js:404-407 | A message goes to the first of name, email and course that it contains ignoring case, or to no field |
| Client.FieldForIsLowercaseIncludes | public/js/app.js:404-407 | That routing is `msg.toLowerCase().includes(word)` for each word in turn |
| Client.FieldErrorsShowLast | public/js/app.js:402-414 | A field shows a message exactly when some message is routed to it, and then it shows the last such message |
| Client.RouteValidation | public/js/app.js:402-407 | Each message `validate` produces goes to its own field: name, course, or the e-mail field for both e-mail messages |
| Client.RankedErrorsReachFields | public/js/app.js:402-414 | For messages in `validate`'s order, a field shows a message exactly when one of its messages is present; "Invalid email format" wins over "Email is required" |
| Client.ValidationErrorsReachFields | public/js/app.js:402-414 | For whatever body is submitted, a field shows a message exactly when one of its checks failed; when both e-mail checks fail, the e-mail field shows "Invalid email format" |

## Left out

- The write-back of the database image to disk (`persist`) and the choice of file path. These are file I/O, and a failed write is only logged. The stored image enters `InitDb` as an optional table.
- The clock. Each INSERT evaluates `datetime('now')` for its own `created_at`. The readings are parameters: `now` for a created student, and `stamps` (one per insert) for the seed batch.
- The sql.js engine and the SQL text. Statements are a datatype and their effects functions. The `users` table's schema is not part of the shown code, so users are a sequence of rows in rowid order, and a lookup returns the first match, as `queryOne` does.
- The order of rows that tie on the sort key. SQLite leaves it open for each query. The model sorts stably, so ties keep rowid order, the order SQLite's table scan yields in practice, and every request uses that same order. StudentQueries.PagesAreSlices, StudentQueries.ListedOnItsPage and StudentQueries.EveryMatchOnItsPage rely on this shared tie order: with a sort key that ties among the matches, two separate page requests could disagree in SQLite, and a record could then be missed or repeated across pages. The other contracts speak only of sortedness and permutation.
- Ordering.SortBy: the `created_at` and text columns compare by code point (SQLite's BINARY collation). Integer ids compare numerically; no other type affinity is modelled.
- 64-bit rowid overflow. AUTOINCREMENT's failure when the largest rowid is reached is not modelled; ids are unbounded integers.
- bcrypt and JWT internals, the 8-hour expiry and the fallback secret. They sit behind the opaque `compare`, `hash`, `sign` and `verify` functions. `hash` being a function hides bcrypt's random salt, which does not affect any property stated here.
- The `iat` and `exp` fields that `jwt.verify` adds to `/me`'s user object. The claims are modelled as exactly `{id, username, role}`.
- `parseInt` producing `NaN` for page, limit or id. Query values are already integers; a non-numeric id finds no row in the source as well.
- JSON body fields that are not strings. A field is modelled as an optional string, with `None` for an absent field, and the model does not say what happens to other values. In the source:
  - `null`, `0` or `false` as name, e-mail or course fails the `!body.x` test and gets 400 "… is required", as an absent field does.
  - A truthy non-string there (a number, `true`, an object) makes `.trim()` throw, giving 500. So does any non-string phone, grade or address, `null` included, since the destructuring default applies only to an absent field.
  - `dob` is stored as sent: a number or `null` is accepted (the column is nullable TEXT). A number as `status` is stored as text.
  - `status: null` violates `NOT NULL`. The error is not a UNIQUE one, so the route rethrows it and answers 500.
- A query string that repeats `order` (an array). `toUpperCase` throws on it, which gives 500.
- Text.LowerChar: lower-casing folds ASCII letters only. SQLite's `LIKE` folds exactly these. For `toLowerCase` on the needles name, email and course the results agree, because the only non-ASCII characters whose lower case contains an ASCII letter (U+212A KELVIN SIGN and U+0130 with its combining dot) cannot complete a match of these words.
- Text.UpperChar: upper-casing maps ASCII letters plus `ſ` and `ı`, the only characters whose upper case is a single ASCII letter. This makes `SafeOrder`'s `DESC` test exact. Characters that upper-case to several letters (such as `ß`) cannot produce `DESC`.
- Everything DOM-related in public/js/app.js: element creation, `escHtml`, toasts and their timers, the 350 ms search debounce, the confirm dialog, the `fetch` calls and the dashboard. So is the toast of the first error in `setFieldErrors`.
- `totalPages` arriving as `null` (a zero limit). The client then renders only the record count, because `null <= 1` holds; `Pagination` takes an integer page count.
- server.js. Express wiring, CORS, static files, the health endpoint and the generic 500 handler carry no logic of their own beyond mounting `requireAuth` on the student routes, which `Auth.Protected` models.

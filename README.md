# Library workflow model

A Dafny model of the request/approval workflow and the inventory views of a
small library-management web application (`LMS/core/views.py`). Students
request books. Administrators approve requests, flip a book's availability
flag, move its copy count by one and delete books. Anyone can search the
catalogue, and a submitted form searches the student profiles.

The database becomes an in-memory store (`Workflow.Store`) with two tables:

- `books`: a map from book key to `Book`. A book has a title, an author, its
  category names, the `available` flag and the `availableCopies` count.
- `requests`: a sequence of `BookRequest` values in primary-key order. Each
  holds its key, the requesting user, the book and `isApproved`. Keys come
  from an auto-increment counter that starts at 1.

The acting user is a `User` value that carries the two role flags. Redirects
and flash messages become an `Outcome` value. `get_object_or_404` becomes the
`NotFound` outcome.

The store's invariant (`Store.Valid`) has four parts:

- keys are increasing and unique;
- every key is below the next one to be handed out;
- at most one pending request exists per (student, book) pair;
- every request refers to a stored book.

Every view method keeps this invariant.

Modules:

- `Text`: ASCII case folding, substring search (`icontains`), and Python's `str.strip()`.
- `Schema`: the records, the invariants, and the row filter `Where`.
- `Listings`: the read-only views and the student search form's cleaning.
- `Login`: the role routing of the login view.
- `Workflow`: the state-changing views, their specification functions, and the lemmas about them.

Assumptions the source does not show:

- `delete_book` calls `book.delete()`. The model file that declares
  `BookRequest.book` is not part of this model. The model assumes
  `on_delete=CASCADE`, so deleting a book also deletes its requests. Under
  `SET_NULL` (or `SET_DEFAULT`) the requests would survive with no book (or
  the default one); under `PROTECT` the delete would fail while requests
  for the book exist.
- `BookRequest.student` is taken to refer to the user: the views store and
  filter it with `request.user` (LMS/core/views.py:29, 34, 43), so the model
  keys it by the user's id. If that foreign key targeted the `Student` row
  instead, `request_book` and `approved_books` would raise an error.
- Every user profile is taken to carry a `student_id` text field, because
  `search_students` filters profiles on it (LMS/core/views.py:221). The
  profile form declares only `profile_picture` and `bio`
  (LMS/core/forms.py:9), and the only student identifier the views read
  elsewhere is `Student.student_id` (LMS/core/views.py:176-177). If the
  profile has no such field, every valid search raises an error instead of
  returning matches.
- Listings come back in primary-key order. The views add no ordering of
  their own.

Places where the code's behaviour is easy to misread; the model follows the code as written:

- Wrong credentials (authentication returns nothing) show the login form
  again with no message.
- "Invalid username or password" is flashed only to a user who authenticates
  but has neither role flag. That branch is reachable.
- A non-admin on an admin page is sent to the login page (`RedirectToLogin`).
- `request_book` checks no role. Any logged-in user can file a request.
- `delete_book` checks no role either.

## Model

| member | source | states |
|---|---|---|
| `Workflow.Store.RequestBook` | LMS/core/views.py:20-38 | A missing book gives NotFound. An unavailable book gives NotAvailable and files nothing. A pending request by the same user for the same book gives AlreadyRequested and files nothing. Otherwise exactly one pending request is appended, with the next key. The book table, copies and flag included, never changes. The at-most-one-pending invariant is kept. |
| `Workflow.Store.ApproveRequest` | LMS/core/views.py:58-66 | A non-admin changes nothing. An admin with an unknown key gets NotFound. Otherwise the table becomes `Approved(old, id)`. The books, and so every copy count, are unchanged. |
| `Workflow.Store.UpdateAvailability` | LMS/core/views.py:134-141 | A non-admin changes nothing. A missing book gives NotFound. Otherwise the book table becomes `Toggled(old, id)` and the requests are unchanged. |
| `Workflow.Store.UpdateAvailableCopies` | LMS/core/views.py:262-277 | The admin check comes before the book lookup. A non-admin changes nothing. Otherwise the book table becomes `Adjusted(old, id, action)` and the requests are unchanged. |
| `Workflow.Store.DeleteBook` | LMS/core/views.py:165-170 | No role is checked. A missing book gives NotFound. Otherwise the book is removed together with the requests that refer to it (the cascade), and the invariant is kept. |
| `Workflow.Store.Valid` | LMS/core/views.py:29-35 | The store's invariant: keys increase and stay below the counter, requests refer to stored books, and no two distinct rows are pending for the same (student, book) pair. |
| `Workflow.Approved` | LMS/core/views.py:62 | The table keeps its length. Every row with the key ends approved. Every other row is kept, and no row appears that was not there or is not the approved target. |
| `Workflow.Toggled` | LMS/core/views.py:139 | The same books are stored. The one book's `available` flag is negated and its copy count kept. Every other book is unchanged. |
| `Workflow.CopiesDelta` | LMS/core/views.py:269-272 | The change is +1 exactly for "increment", -1 exactly for "decrement", and 0 for any other or missing action. |
| `Workflow.Adjusted` | LMS/core/views.py:269-272 | The same books are stored. The one book's copy count moves by `CopiesDelta(action)` and its `available` flag is kept. Every other book is unchanged. |
| `Workflow.PendingUniqueAtPositions` | LMS/core/views.py:29-31 | With unique keys, the pending-uniqueness invariant also holds position by position: two different rows are never both pending for the same pair. |
| `Workflow.IndexOf` | LMS/core/views.py:61 | The primary-key lookup returns a position holding that key. It returns nothing exactly when no request has the key. |
| `Workflow.ApprovalIsTargeted` | LMS/core/views.py:61-63 | Approval sets `isApproved` on the target request. Every other request, and every key, student and book, stay as they were. |
| `Workflow.ApprovalIdempotent` | LMS/core/views.py:61-63 | Approving twice gives the same table as approving once. |
| `Workflow.ApprovalOfApprovedIsNoOp` | LMS/core/views.py:61-63 | Re-approving an already approved request leaves the table unchanged. |
| `Workflow.PointUpdateIsApproval` | LMS/core/views.py:62-63 | Because keys are unique, updating the one row that carries the key is the same as approving that key. |
| `Workflow.ApprovalKeepsInvariants` | LMS/core/views.py:58-66 | Approval keeps key order and key bounds, at most one pending request per (student, book), and references to stored books. |
| `Workflow.AppendKeepsInvariants` | LMS/core/views.py:29-35 | Adding a pending request with a fresh key keeps every invariant, provided the user had no pending request for that book. |
| `Workflow.DeletionKeepsInvariants` | LMS/core/views.py:165-167 | Deleting a book and its requests keeps every invariant. Every surviving request refers to a book that is still stored. |
| `Workflow.ToggleIsInvolution` | LMS/core/views.py:139-140 | Flipping availability twice restores the book table. |
| `Workflow.ToggleTouchesOnlyTheFlag` | LMS/core/views.py:138-140 | The toggle negates `available` on the one book. The copy count, the other fields and the other books are kept. |
| `Workflow.AdjustMovesByOne` | LMS/core/views.py:266-274 | "increment" adds 1 and "decrement" subtracts 1. Any other or missing action leaves the table unchanged. The availability flag and the other books are never touched. |
| `Workflow.DecrementHasNoFloor` | LMS/core/views.py:271-272 | Decrementing a count of 0 gives -1. |
| `Workflow.DecrementUndoesIncrement` | LMS/core/views.py:269-272 | An increment followed by a decrement restores the book table. |
| `Workflow.DuneWalkThrough` | LMS/core/views.py:21-66 | Take a book with two copies. The same student requests it twice: the first request is filed and the second is refused. One request is pending. After an admin approves it, the request is approved and the copy count is still 2. |
| `Schema.Where` | LMS/core/views.py:43 | A filter over the request table returns exactly the matching rows. The result is no longer than the table and stays in key order. |
| `Listings.ViewRequests` | LMS/core/views.py:51-55 | A non-admin is redirected to the login page. An admin gets exactly the pending requests, in key order. |
| `Listings.ApprovedRequests` | LMS/core/views.py:41-43 | The result is exactly the caller's approved requests, in key order. |
| `Listings.ApprovedBooks` | LMS/core/views.py:40-45 | The result has one entry per approved request of the caller, in request order, and each entry is that request's book. Every book of such a request appears. |
| `Listings.AvailableBooks` | LMS/core/views.py:68-70 | The result is exactly the books whose `available` flag is set, with their records unchanged. |
| `Listings.SearchBooks` | LMS/core/views.py:199-212 | A missing or empty query finds no books. Any other query finds exactly the books whose title, author or some category name contains it, ignoring case. |
| `Listings.MatchesQuery` | LMS/core/views.py:206-210 | The OR of the three lookups: the query matches exactly when it is an `icontains` match of one of the title, the author and the category names, that is, when the lower-cased query occurs at some position of one of them lower-cased. |
| `Listings.SearchIgnoresQueryCase` | LMS/core/views.py:206-210 | Lower-casing the query does not change the search result. |
| `Listings.SearchFindsVerbatimMatch` | LMS/core/views.py:206-210 | A book whose title, author or a category name contains the query with the same case is found. |
| `Listings.CleanSearchQuery` | LMS/core/forms.py:124-125 | The submitted value is stripped of surrounding whitespace. It is accepted exactly when the stripped value is non-empty, at most 100 characters long and free of NUL characters. |
| `Listings.CleanedQueryIsStable` | LMS/core/forms.py:124-125 | A cleaned query is accepted unchanged when it is cleaned again. |
| `Listings.SearchStudents` | LMS/core/views.py:214-228 | A request that is not a POST, or whose form is invalid, finds nobody. Otherwise the search finds exactly the profiles whose user name or student identifier contains the cleaned query, ignoring case. |
| `Login.UserLogin` | LMS/core/views.py:144-163 | Only an accepted POST whose user has a role flag logs in. The admin flag wins over the student flag. A user with neither flag gets the error message. Every other case shows the form again. |
| `Login.AdminCheckedFirst` | LMS/core/views.py:152-157 | A user with both flags is sent to the admin dashboard. |
| `Login.WrongCredentialsShowForm` | LMS/core/views.py:150-151 | When authentication fails, the form is shown again with no message. |
| `Text.ContainsIffOccurs` | LMS/core/views.py:207-209 | The left-to-right substring scan is true exactly when the needle occurs at some position of the text. |
| `Text.IContains` | LMS/core/views.py:207-209 | The `icontains` lookup (also used at LMS/core/views.py:220-221) holds exactly when the lower-cased needle occurs at some position of the lower-cased text. |
| `Text.IContainsIgnoresNeedleCase` | LMS/core/views.py:207-209 | `icontains` gives the same answer for a query and its lower-cased form. |
| `Text.ContainsImpliesIContains` | LMS/core/views.py:207-209 | A case-sensitive occurrence is also a case-insensitive one. |
| `Text.TrimStart` | LMS/core/forms.py:125 | Only leading whitespace is removed. The result is a suffix of the input and does not start with whitespace. |
| `Text.TrimEnd` | LMS/core/forms.py:125 | Only trailing whitespace is removed. The result is a prefix of the input and does not end with whitespace. |
| `Text.Strip` | LMS/core/forms.py:125 | The result is a slice of the input with only whitespace outside it. It neither starts nor ends with whitespace. |

## Left out

- Authentication, sessions, `login`/`authenticate` and registration are framework calls. `UserLogin` takes their outcome as inputs.
- `login_required` and anonymous users are out. The actor is always an authenticated `User`. An anonymous user on an admin view, where the code reads `is_admin`, is not modelled.
- Book creation in `admin_dashboard` is out: it is form validation and a many-to-many `set`. The catalogue is the store's constructor argument.
- Creating categories, the category pages, the student dashboard, profile pages and the list of all students are out. They are plain reads and writes done by the framework.
- Template rendering, redirects and flash messages are reduced to the `Outcome`, `Listing` and `LoginResult` values.
- `Text.IContains`: case folding is ASCII lower-casing. The database's own Unicode collation is not modelled.
- `Listings.SearchBooks`: the result is a set of books keyed by book. The duplicate rows that a join on a multi-valued category relation can produce are not modelled.
- `Workflow.Adjusted`: copy counts are unbounded integers. The database column's 32-bit range is not modelled.
- Concurrency is out. The model is sequential, so the lost updates between simultaneous approvals or decrements are not modelled.
- Request timestamps are out. They are never read by the views.

/** The two tables the library workflow reads and writes, the acting
    user's role flags, and the invariants the workflow keeps on the
    request table. */
module Schema {

  datatype Option<T> = None | Some(value: T)

  type BookId = nat
  type RequestId = nat
  type UserId = nat

  /** What a view reports: where it redirects and which message it flashes. */
  datatype Outcome =
    | RedirectToLogin             // the actor is not an admin
    | NotFound                    // the looked-up row does not exist (HTTP 404)
    | NotAvailable                // "This book is not available for request."
    | AlreadyRequested            // "You have already requested this book."
    | Created(request: RequestId) // "Book request sent successfully."
    | Done                        // the row was saved or deleted

  /** The logged-in user with the two independent role flags. */
  datatype User = User(id: UserId, isAdmin: bool, isStudent: bool)

  /** A catalogue entry: `categories` holds the names of the categories the
      book belongs to; `available` and `availableCopies` are independent fields. */
  datatype Book = Book(
    title: string,
    author: string,
    categories: set<string>,
    available: bool,
    availableCopies: int)

  /** A student's claim on a book: pending until `isApproved` is set. */
  datatype BookRequest = BookRequest(
    id: RequestId,
    student: UserId,
    book: BookId,
    isApproved: bool)

  /** Some pending request of `student` for `book` is on file. */
  predicate HasPending(requests: seq<BookRequest>, student: UserId, book: BookId) {
    exists r :: r in requests && !r.isApproved && r.student == student && r.book == book
  }

  /** Rows are kept in primary-key order and no key occurs twice. */
  ghost predicate IdsIncreasing(requests: seq<BookRequest>) {
    forall i, j :: 0 <= i < j < |requests| ==> requests[i].id < requests[j].id
  }

  /** Every key handed out so far is below the next one to be assigned. */
  ghost predicate IdsBelow(requests: seq<BookRequest>, next: RequestId) {
    forall r :: r in requests ==> r.id < next
  }

  /** At most one pending request per (student, book) pair. */
  ghost predicate AtMostOnePending(requests: seq<BookRequest>) {
    forall a, b :: a in requests && b in requests && a.id != b.id && !a.isApproved && !b.isApproved
      ==> a.student != b.student || a.book != b.book
  }

  /** Every request refers to a stored book. */
  ghost predicate RefersToBooks(requests: seq<BookRequest>, books: map<BookId, Book>) {
    forall r :: r in requests ==> r.book in books
  }

  /** The row filters the views apply to the request table. */
  datatype Criterion =
    | PendingOnly
    | ApprovedFor(student: UserId)
    | NotForBook(book: BookId)

  predicate Matches(c: Criterion, r: BookRequest) {
    match c
    case PendingOnly => !r.isApproved
    case ApprovedFor(s) => r.student == s && r.isApproved
    case NotForBook(b) => r.book != b
  }

  /** The rows of `requests` that satisfy `c`, in table order. */
  function Where(requests: seq<BookRequest>, c: Criterion): (r: seq<BookRequest>)
    ensures forall x :: x in r <==> x in requests && Matches(c, x)
    ensures |r| <= |requests|
    ensures IdsIncreasing(requests) ==> IdsIncreasing(r)
  {
    if requests == [] then []
    else
      var rest := Where(requests[1..], c);
      assert forall x :: x in rest ==> x in requests[1..];
      assert IdsIncreasing(requests) ==>
        IdsIncreasing(requests[1..]) && forall x :: x in rest ==> requests[0].id < x.id;
      if Matches(c, requests[0]) then [requests[0]] + rest else rest
  }
}

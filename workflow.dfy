/** The state-changing views of the library: requesting a book, approving
    a request, toggling availability, adjusting the copy count and deleting
    a book. The store holds the two tables in memory; each view becomes a
    method whose outcome stands for the redirect and flash message. */
module Workflow {
  import opened Schema

  // ---------------------------------------------------------------
  // Specification functions: the new table contents after each view.
  // ---------------------------------------------------------------

  /** The request table after the request with key `id` is approved. */
  function Approved(requests: seq<BookRequest>, id: RequestId): (r: seq<BookRequest>)
    ensures |r| == |requests|
    ensures forall x :: x in r && x.id == id ==> x.isApproved
    ensures forall x :: x in r ==> x in requests || (x.isApproved && x.id == id)
    ensures forall x :: x in requests && x.id != id ==> x in r
  {
    var r := seq(|requests|, i requires 0 <= i < |requests| =>
      if requests[i].id == id then requests[i].(isApproved := true) else requests[i]);
    assert forall x :: x in requests && x.id != id ==> x in r by {
      forall x | x in requests && x.id != id ensures x in r {
        var i :| 0 <= i < |requests| && requests[i] == x;
        assert r[i] == x;
      }
    }
    r
  }

  /** The book table after the availability flag of book `id` is flipped. */
  function Toggled(books: map<BookId, Book>, id: BookId): (r: map<BookId, Book>)
    requires id in books
    ensures r.Keys == books.Keys
    ensures r[id].available == !books[id].available
    ensures r[id].availableCopies == books[id].availableCopies
    ensures forall k :: k in books && k != id ==> r[k] == books[k]
  {
    books[id := books[id].(available := !books[id].available)]
  }

  /** The change the copy-count view applies for a submitted `action`. */
  function CopiesDelta(action: Option<string>): (d: int)
    ensures d == 1 <==> action == Some("increment")
    ensures d == -1 <==> action == Some("decrement")
    ensures d == 0 <==> action != Some("increment") && action != Some("decrement")
  {
    if action == Some("increment") then 1
    else if action == Some("decrement") then -1
    else 0
  }

  /** The book table after the copy count of book `id` is adjusted. */
  function Adjusted(books: map<BookId, Book>, id: BookId, action: Option<string>): (r: map<BookId, Book>)
    requires id in books
    ensures r.Keys == books.Keys
    ensures r[id].availableCopies - books[id].availableCopies == CopiesDelta(action)
    ensures r[id].available == books[id].available
    ensures forall k :: k in books && k != id ==> r[k] == books[k]
  {
    books[id := books[id].(availableCopies := books[id].availableCopies + CopiesDelta(action))]
  }

  /** The position of the request with key `id`, if there is one. */
  function IndexOf(requests: seq<BookRequest>, id: RequestId): (r: Option<nat>)
    ensures r.Some? ==> r.value < |requests| && requests[r.value].id == id
    ensures r.None? <==> forall x :: x in requests ==> x.id != id
  {
    if requests == [] then None
    else if requests[0].id == id then Some(0)
    else match IndexOf(requests[1..], id)
      case None => None
      case Some(i) => Some(i + 1)
  }

  // ---------------------------------------------------------------
  // Properties of the specification functions.
  // ---------------------------------------------------------------

  /** Approval marks the target request approved and changes nothing else:
      every other request, and every key, student and book, are kept. */
  lemma ApprovalIsTargeted(requests: seq<BookRequest>, id: RequestId)
    ensures |Approved(requests, id)| == |requests|
    ensures forall i :: 0 <= i < |requests| ==>
      var a := Approved(requests, id)[i];
      a.id == requests[i].id && a.student == requests[i].student && a.book == requests[i].book
      && (requests[i].id == id ==> a.isApproved)
      && (requests[i].id != id ==> a == requests[i])
  {
  }

  /** Approving twice leaves the table as approving once. */
  lemma ApprovalIdempotent(requests: seq<BookRequest>, id: RequestId)
    ensures Approved(Approved(requests, id), id) == Approved(requests, id)
  {
  }

  /** Approving a row that is already approved changes nothing. */
  lemma ApprovalOfApprovedIsNoOp(requests: seq<BookRequest>, id: RequestId)
    requires forall x :: x in requests && x.id == id ==> x.isApproved
    ensures Approved(requests, id) == requests
  {
    assert forall i :: 0 <= i < |requests| ==> Approved(requests, id)[i] == requests[i] by {
      forall i | 0 <= i < |requests| ensures Approved(requests, id)[i] == requests[i] {
        assert requests[i] in requests;
      }
    }
  }

  /** Setting the flag at the one position carrying key `id` is the
      approval of `id`, because keys are unique. */
  lemma PointUpdateIsApproval(requests: seq<BookRequest>, i: nat, id: RequestId)
    requires IdsIncreasing(requests) && i < |requests| && requests[i].id == id
    ensures requests[i := requests[i].(isApproved := true)] == Approved(requests, id)
  {
    var updated := requests[i := requests[i].(isApproved := true)];
    forall k | 0 <= k < |requests| ensures updated[k] == Approved(requests, id)[k] {
      if k < i {
        assert requests[k].id < requests[i].id;
      } else if k > i {
        assert requests[i].id < requests[k].id;
      }
    }
  }

  /** With unique keys, the pending-uniqueness invariant speaks of positions. */
  lemma PendingUniqueAtPositions(requests: seq<BookRequest>)
    ensures IdsIncreasing(requests) && AtMostOnePending(requests) ==>
      forall i, j :: 0 <= i < |requests| && 0 <= j < |requests| && i != j
        && !requests[i].isApproved && !requests[j].isApproved
        ==> requests[i].student != requests[j].student || requests[i].book != requests[j].book
  {
    if IdsIncreasing(requests) && AtMostOnePending(requests) {
      forall i, j | 0 <= i < |requests| && 0 <= j < |requests| && i != j
        && !requests[i].isApproved && !requests[j].isApproved
        ensures requests[i].student != requests[j].student || requests[i].book != requests[j].book
      {
        assert requests[i] in requests && requests[j] in requests;
        assert requests[i].id != requests[j].id;
      }
    }
  }

  /** Approval keeps the request table's invariants. */
  lemma ApprovalKeepsInvariants(requests: seq<BookRequest>, books: map<BookId, Book>, next: RequestId, id: RequestId)
    requires IdsIncreasing(requests) && IdsBelow(requests, next)
    requires AtMostOnePending(requests) && RefersToBooks(requests, books)
    ensures var r := Approved(requests, id);
      IdsIncreasing(r) && IdsBelow(r, next) && AtMostOnePending(r) && RefersToBooks(r, books)
  {
    var r := Approved(requests, id);
    ApprovalIsTargeted(requests, id);
    assert forall x :: x in r ==> x.isApproved || x in requests by {
      forall x | x in r ensures x.isApproved || x in requests {
        var i :| 0 <= i < |r| && r[i] == x;
        assert requests[i] in requests;
      }
    }
    assert forall x :: x in r ==> x.id < next && x.book in books by {
      forall x | x in r ensures x.id < next && x.book in books {
        var i :| 0 <= i < |r| && r[i] == x;
        assert requests[i] in requests;
      }
    }
  }

  /** Adding a pending request with a fresh key keeps the invariants, as long
      as the student has no pending request for the same book. */
  lemma AppendKeepsInvariants(requests: seq<BookRequest>, books: map<BookId, Book>, next: RequestId, student: UserId, book: BookId)
    requires IdsIncreasing(requests) && IdsBelow(requests, next)
    requires AtMostOnePending(requests) && RefersToBooks(requests, books)
    requires book in books && !HasPending(requests, student, book)
    ensures var r := requests + [BookRequest(next, student, book, false)];
      IdsIncreasing(r) && IdsBelow(r, next + 1) && AtMostOnePending(r) && RefersToBooks(r, books)
  {
    var r := requests + [BookRequest(next, student, book, false)];
    assert forall i :: 0 <= i < |requests| ==> requests[i] in requests;
    assert forall x :: x in r ==> x in requests || x == BookRequest(next, student, book, false);
  }

  /** Deleting a book together with its requests keeps the invariants. */
  lemma DeletionKeepsInvariants(requests: seq<BookRequest>, books: map<BookId, Book>, next: RequestId, id: BookId)
    requires IdsIncreasing(requests) && IdsBelow(requests, next)
    requires AtMostOnePending(requests) && RefersToBooks(requests, books)
    ensures var r := Where(requests, NotForBook(id));
      IdsIncreasing(r) && IdsBelow(r, next) && AtMostOnePending(r) && RefersToBooks(r, books - {id})
  {
  }

  /** Flipping availability twice restores the table. */
  lemma ToggleIsInvolution(books: map<BookId, Book>, id: BookId)
    requires id in books
    ensures id in Toggled(books, id) && Toggled(Toggled(books, id), id) == books
  {
  }

  /** The toggle flips exactly one flag: the same books are stored, the copy
      count and every other field of the book are kept, other books are untouched. */
  lemma ToggleTouchesOnlyTheFlag(books: map<BookId, Book>, id: BookId)
    requires id in books
    ensures var t := Toggled(books, id);
      t.Keys == books.Keys
      && t[id].available == !books[id].available
      && t[id] == books[id].(available := t[id].available)
      && forall k :: k in books && k != id ==> t[k] == books[k]
  {
  }

  /** "increment" adds one, "decrement" takes one away, anything else keeps
      the count; the availability flag is never touched. */
  lemma AdjustMovesByOne(books: map<BookId, Book>, id: BookId, action: Option<string>)
    requires id in books
    ensures var a := Adjusted(books, id, action);
      a.Keys == books.Keys
      && (action == Some("increment") ==> a[id].availableCopies == books[id].availableCopies + 1)
      && (action == Some("decrement") ==> a[id].availableCopies == books[id].availableCopies - 1)
      && (action != Some("increment") && action != Some("decrement") ==> a == books)
      && a[id] == books[id].(availableCopies := a[id].availableCopies)
      && forall k :: k in books && k != id ==> a[k] == books[k]
  {
  }

  /** Decrementing has no floor: a book with no copies ends with -1. */
  lemma DecrementHasNoFloor(books: map<BookId, Book>, id: BookId)
    requires id in books && books[id].availableCopies == 0
    ensures Adjusted(books, id, Some("decrement"))[id].availableCopies == -1
  {
  }

  /** A decrement undoes an increment. */
  lemma DecrementUndoesIncrement(books: map<BookId, Book>, id: BookId)
    requires id in books
    ensures id in Adjusted(books, id, Some("increment"))
    ensures Adjusted(Adjusted(books, id, Some("increment")), id, Some("decrement")) == books
  {
  }

  // ---------------------------------------------------------------
  // The store and the views that change it.
  // ---------------------------------------------------------------

  class Store {
    var books: map<BookId, Book>
    var requests: seq<BookRequest>
    var nextRequestId: RequestId

    /** The store's invariant. In positional terms: no two distinct rows are
        both pending for the same (student, book) pair. */
    ghost predicate Valid()
      reads this
      ensures Valid() ==>
        forall i, j :: 0 <= i < |requests| && 0 <= j < |requests| && i != j
          && !requests[i].isApproved && !requests[j].isApproved
          ==> requests[i].student != requests[j].student || requests[i].book != requests[j].book
    {
      PendingUniqueAtPositions(requests);
      IdsIncreasing(requests) && IdsBelow(requests, nextRequestId)
      && AtMostOnePending(requests) && RefersToBooks(requests, books)
    }

    /** A store over a given catalogue, with no requests yet; keys start at 1. */
    constructor (catalogue: map<BookId, Book>)
      ensures Valid()
      ensures books == catalogue && requests == [] && nextRequestId == 1
    {
      books := catalogue;
      requests := [];
      nextRequestId := 1;
    }

    /** `request_book`: refuses a missing book, an unavailable book and a
        second pending request; otherwise files one new pending request.
        The book table is never changed. */
    method RequestBook(student: User, bookId: BookId) returns (o: Outcome)
      requires Valid()
      modifies this
      ensures Valid()
      ensures books == old(books)
      ensures o.NotFound? <==> bookId !in books
      ensures o.NotAvailable? <==> bookId in books && !books[bookId].available
      ensures o.AlreadyRequested? <==>
        bookId in books && books[bookId].available && HasPending(old(requests), student.id, bookId)
      ensures o.Created? <==>
        bookId in books && books[bookId].available && !HasPending(old(requests), student.id, bookId)
      ensures o.Created? ==>
        o.request == old(nextRequestId) && nextRequestId == old(nextRequestId) + 1
        && requests == old(requests) + [BookRequest(o.request, student.id, bookId, false)]
      ensures !o.Created? ==> requests == old(requests) && nextRequestId == old(nextRequestId)
    {
      if bookId !in books {
        return NotFound;
      }
      if !books[bookId].available {
        return NotAvailable;
      }
      if HasPending(requests, student.id, bookId) {
        return AlreadyRequested;
      }
      AppendKeepsInvariants(requests, books, nextRequestId, student.id, bookId);
      requests := requests + [BookRequest(nextRequestId, student.id, bookId, false)];
      o := Created(nextRequestId);
      nextRequestId := nextRequestId + 1;
    }

    /** `approve_request`: a non-admin is sent to the login page; an admin
        approves the request with the given key. No copy is reserved. */
    method ApproveRequest(actor: User, requestId: RequestId) returns (o: Outcome)
      requires Valid()
      modifies this
      ensures Valid()
      ensures o.RedirectToLogin? <==> !actor.isAdmin
      ensures o.NotFound? <==> actor.isAdmin && forall x :: x in old(requests) ==> x.id != requestId
      ensures o in {RedirectToLogin, NotFound, Done}
      ensures books == old(books) && nextRequestId == old(nextRequestId)
      ensures requests == if o.Done? then Approved(old(requests), requestId) else old(requests)
    {
      if !actor.isAdmin {
        return RedirectToLogin;
      }
      match IndexOf(requests, requestId)
      case None =>
        return NotFound;
      case Some(i) =>
        PointUpdateIsApproval(requests, i, requestId);
        ApprovalKeepsInvariants(requests, books, nextRequestId, requestId);
        requests := requests[i := requests[i].(isApproved := true)];
        return Done;
    }

    /** `update_availability`: a non-admin is sent to the login page; an admin
        flips the availability flag of the book. */
    method UpdateAvailability(actor: User, bookId: BookId) returns (o: Outcome)
      requires Valid()
      modifies this
      ensures Valid()
      ensures o.RedirectToLogin? <==> !actor.isAdmin
      ensures o.NotFound? <==> actor.isAdmin && bookId !in old(books)
      ensures o in {RedirectToLogin, NotFound, Done}
      ensures requests == old(requests) && nextRequestId == old(nextRequestId)
      ensures books == if o.Done? then Toggled(old(books), bookId) else old(books)
    {
      if !actor.isAdmin {
        return RedirectToLogin;
      }
      if bookId !in books {
        return NotFound;
      }
      books := Toggled(books, bookId);
      return Done;
    }

    /** `update_available_copies`: a non-admin is sent to the login page; an
        admin moves the copy count by the submitted action, and the book is
        saved even when the action is neither "increment" nor "decrement". */
    method UpdateAvailableCopies(actor: User, bookId: BookId, action: Option<string>) returns (o: Outcome)
      requires Valid()
      modifies this
      ensures Valid()
      ensures o.RedirectToLogin? <==> !actor.isAdmin
      ensures o.NotFound? <==> actor.isAdmin && bookId !in old(books)
      ensures o in {RedirectToLogin, NotFound, Done}
      ensures requests == old(requests) && nextRequestId == old(nextRequestId)
      ensures books == if o.Done? then Adjusted(old(books), bookId, action) else old(books)
    {
      if !actor.isAdmin {
        return RedirectToLogin;
      }
      if bookId !in books {
        return NotFound;
      }
      books := Adjusted(books, bookId, action);
      return Done;
    }

    /** `delete_book`: no role is checked; the book is removed and, by the
        foreign key's cascade, so are the requests that refer to it. */
    method DeleteBook(bookId: BookId) returns (o: Outcome)
      requires Valid()
      modifies this
      ensures Valid()
      ensures o.NotFound? <==> bookId !in old(books)
      ensures o in {NotFound, Done}
      ensures nextRequestId == old(nextRequestId)
      ensures o.Done? ==> books == old(books) - {bookId} && requests == Where(old(requests), NotForBook(bookId))
      ensures o.NotFound? ==> books == old(books) && requests == old(requests)
    {
      if bookId !in books {
        return NotFound;
      }
      DeletionKeepsInvariants(requests, books, nextRequestId, bookId);
      books := books - {bookId};
      requests := Where(requests, NotForBook(bookId));
      return Done;
    }
  }

  /** The walk-through of the workflow: a student asks twice for "Dune",
      which has two copies; the second request is refused, one request is
      pending, and once an admin approves it the copy count is still two. */
  method DuneWalkThrough() returns (first: Outcome, second: Outcome, pending: nat, approved: bool, copies: int)
    ensures first.Created? && second == AlreadyRequested
    ensures pending == 1 && approved && copies == 2
  {
    var dune := Book("Dune", "Frank Herbert", {"Science Fiction"}, true, 2);
    var store := new Store(map[7 := dune]);
    var student := User(1, false, true);
    var admin := User(2, true, false);
    first := store.RequestBook(student, 7);
    assert HasPending(store.requests, student.id, 7) by {
      assert store.requests[0] in store.requests;
    }
    second := store.RequestBook(student, 7);
    pending := |Where(store.requests, PendingOnly)|;
    var approval := store.ApproveRequest(admin, first.request);
    approved := store.requests[0].isApproved;
    copies := store.books[7].availableCopies;
  }
}

/** The read-only views: filters over the book and request tables and
    the student search over user profiles. */
module Listings {
  import opened Text
  import opened Schema

  /** An admin-only page either refuses with an outcome or lists rows. */
  datatype Listing<T> = Refused(outcome: Outcome) | Listed(rows: T)

  /** `view_requests`: an admin sees every pending request, in table order. */
  function ViewRequests(actor: User, requests: seq<BookRequest>): (r: Listing<seq<BookRequest>>)
    ensures r.Refused? <==> !actor.isAdmin
    ensures r.Refused? ==> r.outcome == RedirectToLogin
    ensures r.Listed? ==> forall x :: x in r.rows <==> x in requests && !x.isApproved
    ensures r.Listed? && IdsIncreasing(requests) ==> IdsIncreasing(r.rows)
  {
    if !actor.isAdmin then Refused(RedirectToLogin) else Listed(Where(requests, PendingOnly))
  }

  /** The caller's approved requests, in table order. */
  function ApprovedRequests(requests: seq<BookRequest>, student: UserId): (r: seq<BookRequest>)
    ensures forall x :: x in r <==> x in requests && x.student == student && x.isApproved
    ensures IdsIncreasing(requests) ==> IdsIncreasing(r)
  {
    Where(requests, ApprovedFor(student))
  }

  /** `approved_books`: the book of each of the caller's approved requests,
      one entry per request, in request order. */
  function ApprovedBooks(requests: seq<BookRequest>, books: map<BookId, Book>, student: UserId): (r: seq<Book>)
    requires RefersToBooks(requests, books)
    ensures |r| == |ApprovedRequests(requests, student)|
    ensures forall i :: 0 <= i < |r| ==>
      var x := ApprovedRequests(requests, student)[i];
      x in requests && x.student == student && x.isApproved && r[i] == books[x.book]
    ensures forall x :: x in requests && x.student == student && x.isApproved ==> books[x.book] in r
  {
    var approved := ApprovedRequests(requests, student);
    var r := seq(|approved|, i requires 0 <= i < |approved| => books[approved[i].book]);
    assert forall x :: x in approved ==> books[x.book] in r by {
      forall x | x in approved ensures books[x.book] in r {
        var i :| 0 <= i < |approved| && approved[i] == x;
        assert r[i] == books[x.book];
      }
    }
    r
  }

  /** `available_books`: the books whose availability flag is set. */
  function AvailableBooks(books: map<BookId, Book>): (r: map<BookId, Book>)
    ensures forall k :: k in r <==> k in books && books[k].available
    ensures forall k :: k in r ==> r[k] == books[k]
  {
    map k | k in books && books[k].available :: books[k]
  }

  /** The strings a book search looks at: title, author and category names. */
  function SearchedFields(b: Book): set<string> {
    {b.title, b.author} + b.categories
  }

  /** The search criterion, the OR of three lookups: the query is a
      case-insensitive substring of the title, of the author, or of one of
      the category names; equivalently, the lower-cased query occurs at some
      position of one of the lower-cased searched strings. */
  function MatchesQuery(b: Book, query: string): (r: bool)
    ensures r <==> exists f :: f in SearchedFields(b) && IContains(f, query)
    ensures r <==> exists f, i :: f in SearchedFields(b) && OccursAt(Lower(query), Lower(f), i)
  {
    IContains(b.title, query) || IContains(b.author, query)
    || exists c :: c in b.categories && IContains(c, query)
  }

  /** `search_books`: a missing or empty query finds nothing (not the whole
      catalogue); any other query finds exactly the matching books. */
  function SearchBooks(query: Option<string>, books: map<BookId, Book>): (r: map<BookId, Book>)
    ensures query.None? || query == Some("") ==> r == map[]
    ensures query.Some? && query.value != "" ==>
      forall k :: k in r <==> k in books && MatchesQuery(books[k], query.value)
    ensures forall k :: k in r ==> k in books && r[k] == books[k]
  {
    match query
    case None => map[]
    case Some(q) =>
      if q == "" then map[] else map k | k in books && MatchesQuery(books[k], q) :: books[k]
  }

  /** The query's letter case does not change what the search finds. */
  lemma SearchIgnoresQueryCase(query: string, books: map<BookId, Book>)
    ensures SearchBooks(Some(Lower(query)), books) == SearchBooks(Some(query), books)
  {
    assert |Lower(query)| == |query|;
    forall h: string ensures IContains(h, Lower(query)) == IContains(h, query) {
      IContainsIgnoresNeedleCase(h, query);
    }
  }

  /** A book whose title, author or a category name contains the query
      verbatim is among the results. */
  lemma SearchFindsVerbatimMatch(query: string, books: map<BookId, Book>, k: BookId)
    requires query != "" && k in books
    requires Contains(books[k].title, query) || Contains(books[k].author, query)
      || exists c :: c in books[k].categories && Contains(c, query)
    ensures k in SearchBooks(Some(query), books)
  {
    var b := books[k];
    if Contains(b.title, query) {
      ContainsImpliesIContains(b.title, query);
    } else if Contains(b.author, query) {
      ContainsImpliesIContains(b.author, query);
    } else {
      var c :| c in b.categories && Contains(c, query);
      ContainsImpliesIContains(c, query);
    }
  }

  /** A user profile as the student search sees it. */
  datatype Profile = Profile(username: string, studentId: string)

  const SearchQueryMaxLength := 100

  /** The student search form's one field, required with a maximum length:
      the submitted value is stripped, then refused when it is missing,
      empty, longer than the maximum or holds a NUL character. */
  function CleanSearchQuery(raw: Option<string>): (r: Option<string>)
    ensures raw.None? ==> r.None?
    ensures raw.Some? ==> (r.Some? <==>
      var t := Strip(raw.value); t != "" && |t| <= SearchQueryMaxLength && '\0' !in t)
    ensures r.Some? ==> r.value != "" && |r.value| <= SearchQueryMaxLength && r.value == Strip(raw.value)
  {
    match raw
    case None => None
    case Some(s) =>
      var t := Strip(s);
      if t == "" || |t| > SearchQueryMaxLength || '\0' in t then None else Some(t)
  }

  /** Cleaning is stable: a cleaned query passes the form unchanged. */
  lemma CleanedQueryIsStable(raw: Option<string>)
    requires CleanSearchQuery(raw).Some?
    ensures CleanSearchQuery(CleanSearchQuery(raw)) == CleanSearchQuery(raw)
  {
    var q := CleanSearchQuery(raw).value;
    assert TrimStart(q) == q;
    assert TrimEnd(q) == q;
  }

  /** `search_students`: only a submitted, valid form searches; it finds the
      profiles whose user name or student identifier contains the cleaned
      query, ignoring case. */
  function SearchStudents(isPost: bool, raw: Option<string>, profiles: map<nat, Profile>): (r: map<nat, Profile>)
    ensures !isPost || CleanSearchQuery(raw).None? ==> r == map[]
    ensures isPost && CleanSearchQuery(raw).Some? ==>
      var q := CleanSearchQuery(raw).value;
      forall k :: k in r <==>
        k in profiles && (IContains(profiles[k].username, q) || IContains(profiles[k].studentId, q))
    ensures forall k :: k in r ==> k in profiles && r[k] == profiles[k]
  {
    if !isPost then map[]
    else match CleanSearchQuery(raw)
      case None => map[]
      case Some(q) =>
        map k | k in profiles && (IContains(profiles[k].username, q) || IContains(profiles[k].studentId, q))
          :: profiles[k]
  }
}

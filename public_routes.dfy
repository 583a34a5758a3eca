/** The read-only handlers of the public router: list-all, by-ISBN, by-author,
    by-title and reviews, each in its direct form and, where the router has one,
    in its asynchronous form. */
module PublicRoutes {
  import opened Text
  import opened JsValues
  import opened Http
  import opened Catalog

  const BookNotFound := "Book not found."
  const NoBooksForAuthor := "No books found for this author."
  const NoBooksWithTitle := "No books found with this title."
  const NoReviews := "No reviews found for this book."
  /** The reason the by-ISBN promise rejects with; the catch handler sends it as the message. */
  const RejectReason := "Book not found"
  const FetchByAuthorFailed := "Error fetching books by author."
  const FetchByTitleFailed := "Error fetching books by title."

  /** `GET /`: the whole table, always 200. */
  function ListAll(t: Table): (r: Response<Table>)
    ensures r.Ok? && r.body == t
  {
    Ok(t)
  }

  /** `GET /isbn/:isbn`. */
  function GetByIsbn(t: Table, isbn: string): (r: Response<Book>)
    ensures r.Ok? <==> HasKey(t, isbn)
    ensures r.Ok? ==> (isbn, r.body) in t
    ensures !r.Ok? ==> r == Status(404, BookNotFound)
  {
    match Get(t, isbn)
    case Some(book) => Ok(book)
    case None => Status(404, BookNotFound)
  }

  /** `GET /author/:author`: the records whose author equals the query up to case,
      404 when there is none. */
  function GetByAuthor(t: Table, author: string): (r: Response<seq<Book>>)
    ensures r.Ok? <==> exists i :: 0 <= i < |t| && Lower(t[i].1.author) == Lower(author)
    ensures r.Ok? ==> forall b :: b in r.body <==> b in Values(t) && Lower(b.author) == Lower(author)
    ensures !r.Ok? ==> r == Status(404, NoBooksForAuthor)
  {
    var filtered := Select(Values(t), Author, Lower(author));
    if |filtered| > 0 then
      assert filtered[0] in Values(t);
      Ok(filtered)
    else
      assert forall i :: 0 <= i < |t| ==> Values(t)[i] in Values(t);
      Status(404, NoBooksForAuthor)
  }

  /** `GET /title/:title`: the records whose title equals the query up to case,
      404 when there is none. */
  function GetByTitle(t: Table, title: string): (r: Response<seq<Book>>)
    ensures r.Ok? <==> exists i :: 0 <= i < |t| && Lower(t[i].1.title) == Lower(title)
    ensures r.Ok? ==> forall b :: b in r.body <==> b in Values(t) && Lower(b.title) == Lower(title)
    ensures !r.Ok? ==> r == Status(404, NoBooksWithTitle)
  {
    var filtered := Select(Values(t), Title, Lower(title));
    if |filtered| > 0 then
      assert filtered[0] in Values(t);
      Ok(filtered)
    else
      assert forall i :: 0 <= i < |t| ==> Values(t)[i] in Values(t);
      Status(404, NoBooksWithTitle)
  }

  /** `GET /review/:isbn`: the record's `reviews` whenever the record exists and that
      property is truthy, so an empty reviews object is answered with 200. */
  function GetReviews(t: Table, isbn: string): (r: Response<JsValue>)
    ensures r.Ok? <==> HasKey(t, isbn) && Truthy(Get(t, isbn).value.reviews)
    ensures r.Ok? ==> r.body == Get(t, isbn).value.reviews
    ensures !r.Ok? ==> r == Status(404, NoReviews)
  {
    match Get(t, isbn)
    case Some(book) =>
      if Truthy(book.reviews) then Ok(book.reviews) else Status(404, NoReviews)
    case None => Status(404, NoReviews)
  }

  /** `GET /async/books`: awaits a function that returns the table; it cannot throw,
      so the 500 branch is never taken. */
  function AsyncListAll(t: Table): (r: Response<Table>)
    ensures r == ListAll(t)
  {
    Ok(t)
  }

  /** How a promise settles. */
  datatype Settled<T> = Resolved(value: T) | Rejected(reason: string)

  /** The promise built by `GET /async/isbn/:isbn`. */
  function IsbnPromise(t: Table, isbn: string): (p: Settled<Book>)
    ensures p.Resolved? <==> HasKey(t, isbn)
    ensures p.Resolved? ==> p.value == Get(t, isbn).value
    ensures p.Rejected? ==> p.reason == RejectReason
  {
    match Get(t, isbn)
    case Some(book) => Resolved(book)
    case None => Rejected(RejectReason)
  }

  /** `GET /async/isbn/:isbn`: `then` answers 200 with the record, `catch` 404 with the reason. */
  function AsyncByIsbn(t: Table, isbn: string): (r: Response<Book>)
    ensures r.Ok? <==> IsbnPromise(t, isbn).Resolved?
    ensures r.Ok? ==> r.body == IsbnPromise(t, isbn).value
    ensures !r.Ok? ==> r == Status(404, IsbnPromise(t, isbn).reason)
  {
    match IsbnPromise(t, isbn)
    case Resolved(book) => Ok(book)
    case Rejected(reason) => Status(404, reason)
  }

  /** What the HTTP fetch of the list-all route yields: the table it decoded, or a failure. */
  datatype FetchResult = Fetched(data: Table) | FetchFailed

  /** `GET /async/author/:author`: fetch the table, lower the query once, filter. */
  function AsyncByAuthor(fetch: FetchResult, author: string): (r: Response<seq<Book>>)
    ensures r.Ok? <==> fetch.Fetched?
    ensures !r.Ok? ==> r == Status(500, FetchByAuthorFailed)
  {
    match fetch
    case FetchFailed => Status(500, FetchByAuthorFailed)
    case Fetched(data) =>
      var needle := Lower(author);
      Ok(Select(Values(data), Author, needle))
  }

  /** `GET /async/title/:title`: fetch the table, lower the query once, filter. */
  function AsyncByTitle(fetch: FetchResult, title: string): (r: Response<seq<Book>>)
    ensures r.Ok? <==> fetch.Fetched?
    ensures !r.Ok? ==> r == Status(500, FetchByTitleFailed)
  {
    match fetch
    case FetchFailed => Status(500, FetchByTitleFailed)
    case Fetched(data) =>
      var needle := Lower(title);
      Ok(Select(Values(data), Title, needle))
  }

  // Properties of the handlers

  /** The two by-ISBN routes answer with the same status for every key and with the same
      record when found; only the wording of the 404 message differs. */
  lemma IsbnRoutesAgree(t: Table, isbn: string)
    ensures AsyncByIsbn(t, isbn).StatusCode() == GetByIsbn(t, isbn).StatusCode()
    ensures GetByIsbn(t, isbn).Ok? ==> AsyncByIsbn(t, isbn) == GetByIsbn(t, isbn)
    ensures !GetByIsbn(t, isbn).Ok? ==>
      GetByIsbn(t, isbn).message == BookNotFound && AsyncByIsbn(t, isbn).message == RejectReason
  {
  }

  /** In a real table (distinct keys) by-ISBN returns exactly the record stored under the key. */
  lemma IsbnReturnsStoredRecord(t: Table, isbn: string, b: Book)
    requires DistinctKeys(t)
    requires (isbn, b) in t
    ensures GetByIsbn(t, isbn) == Ok(b)
    ensures AsyncByIsbn(t, isbn) == Ok(b)
  {
  }

  /** A query, its lower-case form and its upper-case form give the same answer, on the
      direct and on the asynchronous search routes. */
  lemma SearchIgnoresQueryCase(t: Table, fetch: FetchResult, q: string)
    ensures GetByAuthor(t, Lower(q)) == GetByAuthor(t, q) && GetByAuthor(t, Upper(q)) == GetByAuthor(t, q)
    ensures GetByTitle(t, Lower(q)) == GetByTitle(t, q) && GetByTitle(t, Upper(q)) == GetByTitle(t, q)
    ensures AsyncByAuthor(fetch, Lower(q)) == AsyncByAuthor(fetch, q) && AsyncByAuthor(fetch, Upper(q)) == AsyncByAuthor(fetch, q)
    ensures AsyncByTitle(fetch, Lower(q)) == AsyncByTitle(fetch, q) && AsyncByTitle(fetch, Upper(q)) == AsyncByTitle(fetch, q)
  {
    LowerIdempotent(q);
    LowerOfUpper(q);
  }

  /** The records a search response carries: its body on 200, none otherwise. */
  function Found(r: Response<seq<Book>>): seq<Book> {
    if r.Ok? then r.body else []
  }

  lemma ValuesAppend(t1: Table, t2: Table)
    ensures Values(t1 + t2) == Values(t1) + Values(t2)
  {
  }

  /** Search results follow table order: searching a table made of two parts gives the
      matches of the first part followed by those of the second. */
  lemma SearchKeepsTableOrder(t1: Table, t2: Table, q: string)
    ensures Found(GetByAuthor(t1 + t2, q)) == Found(GetByAuthor(t1, q)) + Found(GetByAuthor(t2, q))
    ensures Found(GetByTitle(t1 + t2, q)) == Found(GetByTitle(t1, q)) + Found(GetByTitle(t2, q))
  {
    ValuesAppend(t1, t2);
    SelectAppend(Values(t1), Values(t2), Author, Lower(q));
    SelectAppend(Values(t1), Values(t2), Title, Lower(q));
  }

  /** Search results hold every copy of each matching record, and nothing else. */
  lemma SearchKeepsEveryMatch(t: Table, q: string, b: Book)
    ensures multiset(Found(GetByAuthor(t, q)))[b] ==
      if Lower(b.author) == Lower(q) then multiset(Values(t))[b] else 0
    ensures multiset(Found(GetByTitle(t, q)))[b] ==
      if Lower(b.title) == Lower(q) then multiset(Values(t))[b] else 0
  {
    SelectCounts(Values(t), Author, Lower(q), b);
    SelectCounts(Values(t), Title, Lower(q), b);
  }

  /** When the fetch returns the table, the asynchronous author search answers with the
      records the direct one answers with, but with 200 and an empty list where the direct
      one answers 404: the two agree exactly when some record matches. */
  lemma AsyncAuthorVersusDirect(t: Table, author: string)
    ensures AsyncByAuthor(Fetched(t), author) == Ok(Found(GetByAuthor(t, author)))
    ensures AsyncByAuthor(Fetched(t), author) == GetByAuthor(t, author) <==> GetByAuthor(t, author).Ok?
  {
  }

  /** The same relation between the asynchronous and the direct title search. */
  lemma AsyncTitleVersusDirect(t: Table, title: string)
    ensures AsyncByTitle(Fetched(t), title) == Ok(Found(GetByTitle(t, title)))
    ensures AsyncByTitle(Fetched(t), title) == GetByTitle(t, title) <==> GetByTitle(t, title).Ok?
  {
  }

  /** A record whose reviews are the empty object answers 200 with that empty object;
      only a missing, null or otherwise falsy `reviews` answers 404. */
  lemma EmptyReviewsAreFound(t: Table, isbn: string, b: Book)
    requires DistinctKeys(t)
    requires (isbn, b) in t
    ensures b.reviews == Object([]) ==> GetReviews(t, isbn) == Ok(Object([]))
    ensures b.reviews == Undefined || b.reviews == Null ==> GetReviews(t, isbn) == Status(404, NoReviews)
  {
  }

  /** Two strings of equal length whose characters agree up to case have the same lower-case form. */
  lemma SameUpToCase(a: string, b: string)
    requires |a| == |b|
    requires forall i :: 0 <= i < |a| ==> LowerChar(a[i]) == LowerChar(b[i])
    ensures Lower(a) == Lower(b)
  {
  }

  /** The one-record table of the examples below: Things Fall Apart under key "1",
      with an empty reviews object. */
  function AchebeTable(): Table {
    [("1", Book("Chinua Achebe", "Things Fall Apart", Object([])))]
  }

  /** Lookups in the one-record table: key "1" is found, key "2" is not, and the empty
      reviews object is answered with 200. */
  lemma AchebeLookups()
    ensures GetByIsbn(AchebeTable(), "1") == Ok(AchebeTable()[0].1)
    ensures GetByIsbn(AchebeTable(), "2") == Status(404, BookNotFound)
    ensures AsyncByIsbn(AchebeTable(), "2") == Status(404, RejectReason)
    ensures GetReviews(AchebeTable(), "1") == Ok(Object([]))
  {
  }

  /** A lower-case author query finds the one record. */
  lemma AchebeAuthorSearch()
    ensures GetByAuthor(AchebeTable(), "chinua achebe") == Ok([AchebeTable()[0].1])
  {
    var achebe := AchebeTable()[0].1;
    assert Values(AchebeTable()) == [achebe];
    SameUpToCase("Chinua Achebe", "chinua achebe");
    assert Select([achebe], Author, Lower("chinua achebe")) == [achebe];
  }

  /** A title that no record has: the asynchronous route answers 200 with an empty list
      where the direct one answers 404. */
  lemma AchebeTitleMiss()
    ensures AsyncByTitle(Fetched(AchebeTable()), "Ulysses") == Ok([])
    ensures GetByTitle(AchebeTable(), "Ulysses") == Status(404, NoBooksWithTitle)
  {
    var achebe := AchebeTable()[0].1;
    assert Values(AchebeTable()) == [achebe];
    assert !Matches(achebe, Title, Lower("Ulysses")) by {
      assert |Lower("Ulysses")| != |Lower("Things Fall Apart")|;
    }
    assert Select([achebe], Title, Lower("Ulysses")) == [];
  }
}

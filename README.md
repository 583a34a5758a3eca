# Book catalogue routes: a Dafny model

This project models the public router of a small book-review web service
(`final_project/router/general.js`). The router serves a catalogue of books
(a table from ISBN to a record with `author`, `title` and `reviews`) and
accepts new user registrations. It covers:

- **registration**: a shared `users` list. `POST /register` rejects a
  missing or falsy username or password (400) and a name the `isValid` check
  reports as taken (409). Otherwise it appends `{username, password}` (200).
- **direct catalogue routes**: list-all, by-ISBN, by-author, by-title and
  reviews. Each is a function over the table.
- **asynchronous catalogue routes**: list-all through an awaited function,
  by-ISBN through a promise, and author/title search through an HTTP fetch
  of the list-all route followed by a filter.

Modules:

- `Text` (`text.dfy`): ASCII `Lower`/`Upper`, standing in for `toLowerCase`.
- `JsValues` (`js_values.dfy`): JSON values and JavaScript truthiness.
- `Http` (`http.dfy`): a response is `Ok(body)` (200) or `Status(code, message)`.
- `Catalog` (`catalog.dfy`): the table as an ordered sequence of
  `(key, record)` entries, with `Get` (`books[key]`), `Values`
  (`Object.values`) and `Select` (the case-insensitive `filter`).
- `PublicRoutes` (`public_routes.dfy`): the nine catalogue routes (and the by-ISBN promise) and their
  properties.
- `Registration` (`registration.dfy`): class `UserRegistry` whose field
  `users: seq<User>` the `Register` method appends to.

Where the code and a plain reading of the service's intent differ, the model
follows the code:

- A record whose `reviews` is the empty object `{}` is answered with
  **200 and `{}`**. The test at line 65 is JavaScript truthiness, and every
  object is truthy. Only a missing, null or otherwise falsy `reviews` gives 404
  (`EmptyReviewsAreFound`).
- The asynchronous author and title searches answer **200 with an empty list**
  when nothing matches. The direct ones answer 404. The two agree exactly when
  some record matches (`AsyncAuthorVersusDirect`, `AsyncTitleVersusDirect`,
  `AchebeTitleMiss`). A failed fetch gives 500, never 404.
- The promise-based by-ISBN route rejects with `"Book not found"`, without the
  full stop. The direct route's message is `"Book not found."`. Status codes and
  found records are the same for every key (`IsbnRoutesAgree`).

## Model

| member | source | states |
|---|---|---|
| `JsValues.Truthy` | final_project/router/general.js:12 | undefined, null, false, 0 and "" are falsy; every other value, each array and object (empty ones included) among them, is truthy |
| `Text.Lower` | final_project/router/general.js:43 | lower-casing keeps the length and lowers each character; no upper-case ASCII letter is left |
| `Text.LowerIdempotent` | final_project/router/general.js:101-103 | lowering an already lowered query changes nothing |
| `Text.LowerOfUpper` | final_project/router/general.js:54 | for the ASCII case mapping, a string and its upper-case form lower to the same string |
| `Catalog.Get` | final_project/router/general.js:34 | `books[isbn]` yields a record exactly when the key is in the table, and that record is stored under the key |
| `Catalog.GetFindsEntry` | final_project/router/general.js:34 | in a table with distinct keys, `books[isbn]` is the record stored under `isbn` |
| `Catalog.Values` | final_project/router/general.js:42 | `Object.values` has one record per entry, in table order |
| `Catalog.Matches` | final_project/router/general.js:43 | a record matches a lowered query exactly when its field has the query's length and lowers to it character by character |
| `Catalog.Select` | final_project/router/general.js:42-44 | a record is in the filtered list exactly when it is in the input and its lowered field equals the lowered query; the result is never longer than the input |
| `Catalog.SelectAppend` | final_project/router/general.js:53-55 | filtering keeps input order: it distributes over concatenation |
| `Catalog.SelectCounts` | final_project/router/general.js:102-104 | the filter keeps every copy of a matching record and drops every other record |
| `PublicRoutes.ListAll` | final_project/router/general.js:27-29 | list-all answers 200 with the whole table |
| `PublicRoutes.GetByIsbn` | final_project/router/general.js:32-37 | 200 exactly when the key is in the table, with the record stored under it; otherwise 404 "Book not found." |
| `PublicRoutes.GetByAuthor` | final_project/router/general.js:40-48 | 200 exactly when some record's author equals the query up to case; the body holds exactly those records of the table; otherwise 404 "No books found for this author." |
| `PublicRoutes.GetByTitle` | final_project/router/general.js:51-59 | the same as by-author on the `title` field, with 404 "No books found with this title." |
| `PublicRoutes.GetReviews` | final_project/router/general.js:62-68 | 200 with the record's `reviews` exactly when the record exists and `reviews` is truthy; otherwise 404 "No reviews found for this book." |
| `PublicRoutes.AsyncListAll` | final_project/router/general.js:75-83 | the async list-all gives the same response as the direct one; its 500 branch cannot be taken |
| `PublicRoutes.IsbnPromise` | final_project/router/general.js:88-92 | the promise resolves exactly when the key is in the table, with the record `books[isbn]`, and otherwise rejects with "Book not found" |
| `PublicRoutes.AsyncByIsbn` | final_project/router/general.js:93-94 | 200 exactly when the promise resolves, with the resolved record as body; otherwise 404 with the rejection reason as message |
| `PublicRoutes.AsyncByAuthor` | final_project/router/general.js:98-109 | 200 exactly when the fetch succeeds (never 404), otherwise 500 "Error fetching books by author." |
| `PublicRoutes.AsyncByTitle` | final_project/router/general.js:112-123 | 200 exactly when the fetch succeeds (never 404), otherwise 500 "Error fetching books by title." |
| `PublicRoutes.IsbnRoutesAgree` | final_project/router/general.js:86-95 | the direct and the promise-based by-ISBN routes give the same status and the same record for every key; the 404 messages are "Book not found." and "Book not found" |
| `PublicRoutes.IsbnReturnsStoredRecord` | final_project/router/general.js:35 | with distinct keys, both by-ISBN routes answer 200 with the record stored under the key |
| `PublicRoutes.SearchIgnoresQueryCase` | final_project/router/general.js:43 | a query and its lower-case form give the same response on all four search routes; so does its upper-case form, for the ASCII case mapping only |
| `PublicRoutes.SearchKeepsTableOrder` | final_project/router/general.js:45 | search results over a table made of two parts are the first part's matches followed by the second part's |
| `PublicRoutes.SearchKeepsEveryMatch` | final_project/router/general.js:56 | each record occurs in a search result as often as in the table if it matches, and not at all otherwise |
| `PublicRoutes.AsyncAuthorVersusDirect` | final_project/router/general.js:105 | on the fetched table the async author search carries the direct search's records (empty when it 404s), and the two responses are equal exactly when the direct one is 200 |
| `PublicRoutes.AsyncTitleVersusDirect` | final_project/router/general.js:119 | the same relation between the async and the direct title search |
| `PublicRoutes.EmptyReviewsAreFound` | final_project/router/general.js:65 | a record with reviews `{}` answers 200 with `{}`; one with undefined or null reviews answers 404 |
| `PublicRoutes.AchebeLookups` | final_project/router/general.js:62-68 | in a one-record table, key "1" is found, key "2" is 404 on both by-ISBN routes, and the empty reviews object is answered with 200 |
| `PublicRoutes.AchebeAuthorSearch` | final_project/router/general.js:40-45 | in that table, the lower-case author query finds the record |
| `PublicRoutes.AchebeTitleMiss` | final_project/router/general.js:112-119 | in that table, a title with no match is 200 with an empty list asynchronously and 404 directly |
| `Registration.AppendKeepsUnique` | final_project/router/general.js:22 | appending a user whose name is not taken keeps usernames unique and makes the name taken |
| `Registration.UserRegistry.constructor` | final_project/router/general.js:5 | the registry starts from the given users |
| `Registration.UserRegistry.Register` | final_project/router/general.js:9-24 | a falsy username or password gives 400 and no change; if `isValid(username)` holds, 409 and no change, whatever the (truthy) password; otherwise 200 and exactly `{username, password}` appended; `users` changes exactly on 200; usernames stay unique when `isValid` reports every taken name |
| `Registration.RegisterTwice` | final_project/router/general.js:18-23 | with `isValid` as membership, a fresh name registers once (200) and the second attempt is 409 whatever its truthy password, with one user appended in all |

## Left out

- Express routing, the `req`/`res` objects and JSON serialisation are not modelled. A handler is a function from its inputs to a `Response`.
- The HTTP call to `localhost:5000` in the async author and title routes is a network client. It becomes the input `FetchResult`: the decoded table or a failure. The model does not say that the fetched table equals the local one; the lemmas relating the two paths take the fetched table as a parameter.
- The promise and `async`/`await` machinery is not modelled. Each route settles once, so it is a plain function; the promise of the by-ISBN route is a `Settled` value.
- `isValid` comes from `final_project/router/auth_users.js`, which is not part of this model. It is a parameter of `Register`. Uniqueness of usernames is proved only when it reports every name already in `users`.
- `final_project/router/booksdb.js` is not part of this model. The table is an input. Its key order stands for the order of `Object.values`.
- Text.Lower: it lowers ASCII letters only, not the full Unicode mapping of `toLowerCase`.
- PublicRoutes.SearchIgnoresQueryCase: the upper-case half holds for the ASCII case mapping only. JavaScript's `toUpperCase` can change a string in a way `toLowerCase` does not undo. `"ß"` upper-cases to `"SS"`, which lowers to `"ss"`. So for an author `"Strauß"`, the query `"Strauß"` gets 200 and `"STRAUSS"` gets 404. The lower-case half does carry over to the program.
- Text.LowerOfUpper: the same caveat. It is a fact about the ASCII stand-in, and it fails for `"ß"` under JavaScript's Unicode mapping.
- Properties inherited from `Object.prototype` (e.g. `books["constructor"]`) are not modelled. Lookup sees only the table's own entries.
- Records whose `author` or `title` is not a string are not modelled. On those, `toLowerCase` throws, giving 500 in the async routes and Express's default error in the direct ones. Every record has string fields here.
- A request whose `req.body` is undefined is not modelled. That happens only when no body parser ran, and then destructuring it throws. With a JSON body parser a request without a body gets `{}`, so both fields are `Undefined` and the model answers 400.
- Concurrent registrations are not modelled. The code runs them one at a time and has no locking.
- JSON numbers are reals. Truthiness is tested against `0.0`.

# expressBookReviews: a Dafny model of the book-review service's state machine

The service keeps two pieces of in-memory state, shared by its two Express
routers:

- a **user table**: an array of `{username, password}` entries, declared in
  `router/auth_users.js` and appended to by `/register` in `router/general.js`;
- a **book catalogue** keyed by ISBN, where each book has a title, an author
  and a `reviews` object that maps a username to that user's review.

This project models every route handler that reads or changes that state,
except the three whole-catalogue reads listed under "Left out".
`/register` appends to the user table. `/login` decides whether to issue a
token. `PUT` and `DELETE /auth/review/:isbn` change a book's reviews in place.
The lookups by ISBN, author and title and the review listing only read. Each
handler answers with a status code and, on success, the data it returns.

## Layout

- `values.dfy` (module `Values`): `Option`, and `JsValue`, a JSON value from a
  request body. It comes with `Truthy`, JavaScript's truthiness, so that
  `!username` means what it means in the source.
- `text.dfy` (module `Text`): ASCII `toLowerCase` (`Lower`) and
  `String.prototype.includes` (`Includes`). `Includes` is proved equal to
  "occurs as a substring" (`IsSubstring`).
- `store.dfy` (module `Store`): the entities (`User`, `Book`, `Catalogue`),
  the status codes, the reply type and `FindFirst` (`Array.prototype.find`).
  The class `State` holds `users: seq<User>` and `books: map<string, Book>`,
  with the invariant `Valid()`: usernames are unique and no stored review is
  empty.
- `auth_users.dfy` (module `AuthUsers`): `IsValid`, `AuthenticatedUser`,
  `Login`, and the review handlers `AddReview` and `DeleteReview`. They are
  methods that change `db.books` in place.
- `general.dfy` (module `General`): `Register`, which changes `db.users` in
  place, and the read-only handlers. The author and title filters are loops
  over the catalogue's keys that build the result map, as the `forEach` loops
  in the source do.

Handlers take the shared `State` as a parameter, just as the JavaScript
handlers close over the module-level `users` and `books`. Handlers that only
read are functions or methods without a `modifies` clause, so by
construction they change neither table.

Body fields (`username`, `password`) are `JsValue`s, because `express.json()`
can deliver any JSON value there. This makes two behaviours of the code
visible:

- `/register` does not call `isValid`, so any truthy value registers, a
  number among them;
- `/login` rejects every value that is not a non-empty string with 400, so a
  user registered under a number can never log in (`General.RegisterThenLogin`).

The source's `!books[isbn].reviews[username]` in `DELETE` treats an empty
review as absent. The model does the same. The invariant `ReviewsNonEmpty`
holds initially for a seed without empty reviews, and both review handlers
keep it. Under it, "absent or empty" is "absent".

## Model

| member | source | states |
|---|---|---|
| `Text.Lower` | router/general.js:84 | lowercasing keeps the length, maps each character through ASCII lowercasing and leaves no upper-case ASCII letter |
| `Text.LowerIdempotent` | router/general.js:84-89 | lowercasing an already lowercased string changes nothing |
| `Text.IncludesIsSubstring` | router/general.js:121 | the `includes` scan succeeds exactly when the needle occurs at some position of the haystack |
| `Store.FindFirst` | router/auth_users.js:13 | `find` answers the first entry that matches, and answers nothing exactly when no entry matches |
| `Store.AppendKeepsUnique` | router/general.js:20-27 | appending a user whose name is not taken keeps all usernames distinct |
| `Store.State.constructor` | router/auth_users.js:6 | the user table starts empty and the catalogue is the seed; a seed without empty reviews satisfies the invariant |
| `AuthUsers.IsValid` | router/auth_users.js:8-10 | `isValid(u)` holds exactly when `u` is a non-empty string |
| `AuthUsers.AuthenticatedUser` | router/auth_users.js:12-14 | holds exactly when some entry has both the given username and the given password |
| `AuthUsers.Login` | router/auth_users.js:17-65 | 400 exactly when a field is falsy or the username is not a string; 401 exactly when the fields pass but no entry has this username and password; 200 exactly when such an entry exists, with the username the token is signed over |
| `AuthUsers.LoginSubjectIsRegistered` | router/auth_users.js:36-47 | a successful login names a non-empty string username that is in the user table |
| `AuthUsers.AddReview` | router/auth_users.js:68-104 | 400 with no change when the ISBN or review is missing or empty; 404 with no change for an unknown ISBN; otherwise 200, the user's review on that book is set (overwriting an earlier one), every other book and every other user's review is unchanged, and no empty review is ever stored |
| `AuthUsers.DeleteReview` | router/auth_users.js:107-141 | 404 with no change for an unknown ISBN or when the user has no (non-empty) review there; otherwise 200 and exactly that user's key is removed from that book, all else unchanged; the invariant is kept |
| `AuthUsers.AddThenDelete` | router/auth_users.js:89-133 | a user without a review on a book who adds one and deletes it gets 200 twice and leaves the catalogue exactly as it was |
| `General.Register` | router/general.js:8-39 | 400 with no change when a field is falsy; 409 with no change when the name is taken; otherwise 201 and exactly one `{username, password}` is appended, after which the name is taken; unique usernames stay unique |
| `General.RegisterThenLogin` | router/general.js:13-32 | a string username that registers can then log in; a username that is not a string always gets 400 from login, registered or not |
| `General.GetBookByIsbn` | router/general.js:58-79 | 200 with `books[isbn]` exactly when the ISBN is in the catalogue, otherwise 404 |
| `General.BookPromise` | router/general.js:245-257 | the promise resolves with the book exactly when the ISBN is in the catalogue, and rejects otherwise |
| `General.AsyncGetBookByIsbn` | router/general.js:240-272 | the async/await route answers exactly as the synchronous ISBN lookup |
| `General.PromiseGetBookByIsbn` | router/general.js:275-304 | the `.then`/`.catch` route answers exactly as the synchronous ISBN lookup |
| `General.GetBooksByAuthor` | router/general.js:82-111 | the result holds exactly the books whose lowercased author equals the lowercased request, with unchanged entries; 200 exactly when there is one, otherwise 404 |
| `General.GetBooksByTitle` | router/general.js:114-143 | the result holds exactly the books whose lowercased title contains the lowercased request as a substring; it is a sub-map of the catalogue; 200 exactly when it is non-empty, otherwise 404 |
| `General.GetReviews` | router/general.js:146-178 | 404 for an unknown ISBN and for a book with no reviews, otherwise 200 with that book's reviews map |
| `General.QueriesIgnoreCase` | router/general.js:84-121 | a query and its lower-case spelling match the same authors and titles |

## Left out

- `index.js` is not part of this model. It holds the server set-up, the session middleware, `app.listen`, and the bearer-token middleware, which answers 401 without a header and 403 for a token that does not verify. The review handlers take the username from the verified token as a parameter.
- `jwt.sign` and the session assignment in `/login` are foreign libraries. `AuthUsers.Login` returns the username the token would be signed over instead of the token.
- `/`, `/async` and `/promise` return the whole catalogue through a `JSON.parse(JSON.stringify(...))` deep copy. They only read, and that copy is foreign serialisation code.
- The 500 answers of the `try`/`catch` blocks are not modelled. They are reached only through runtime exceptions, such as a `PUT` whose ISBN names an inherited property of `Object.prototype`, like `constructor`.
- AuthUsers.AddReview: the reviews object is a plain map. In the source, a user named `__proto__` gets 200, but the review is never stored as an own key (router/auth_users.js:89). The model stores it.
- AuthUsers.DeleteReview: the reviews object is a plain map. In the source, a user named after an inherited property (`constructor`, `toString`) who has no review gets 200, because the inherited value is truthy (router/auth_users.js:120) and the `delete` at router/auth_users.js:127 has no effect. The model answers 404.
- General.GetBookByIsbn: the catalogue is a plain map. An ISBN that names an inherited property of `Object.prototype`, such as `constructor`, gets 404 in the model. In the source it is found and answers 200, and so do the async and promise variants. For the same ISBN, `/review/:isbn` answers 500 in the source, because the inherited value has no `reviews`. The author and title filters iterate over `Object.keys` and are unaffected.
- Text.Lower: lowercases only the ASCII letters `A`-`Z`. JavaScript's `toLowerCase` follows Unicode case mapping.
- `JsValue` has integer numbers and the primitive JSON values only. Fractional numbers, objects and arrays in a request body are not modelled; objects and arrays compare by reference under `===`.
- The `review` query parameter is a string or absent. The array or object that repeated or bracketed query parameters would produce is not modelled.
- Response messages and echoed fields are not modelled: the message texts, the username echoed by `/register`, and the isbn, username and review echoed by the review routes. Nor is the key order of the JSON objects returned by the filters. Each handler returns its status and its data.
- The catalogue holds book values, not shared objects. The source returns the same object it later mutates, but a response is serialised at once, so no sequential run can tell the two apart.
- The seed contents of `booksdb.js` are not part of this model. The `State` constructor takes the seed as a parameter.

/**
 The in-memory state both routers share: the user table declared in
 router/auth_users.js and the book catalogue loaded from booksdb.js.
 */
module Store {
  import opened Values

  /** An entry of the user table, as `users.push({ username, password })`
      stores it: whatever JSON values the request body held. */
  datatype User = User(username: JsValue, password: JsValue)

  /** A catalogue entry; `reviews` maps a username to that user's review. */
  datatype Book = Book(title: string, author: string, reviews: map<string, string>)

  /** The catalogue, keyed by ISBN. */
  type Catalogue = map<string, Book>

  /** The HTTP status codes the handlers answer with. */
  datatype Status = OK | Created | BadRequest | Unauthorized | NotFound | Conflict
  {
    function Code(): int
    {
      match this
      case OK => 200
      case Created => 201
      case BadRequest => 400
      case Unauthorized => 401
      case NotFound => 404
      case Conflict => 409
    }
  }

  /** A response: 200 with its data, or an error status. */
  datatype Reply<T> = Success(value: T) | Failure(status: Status)
  {
    function Code(): int
    {
      match this
      case Success(_) => 200
      case Failure(s) => s.Code()
    }
  }

  /** Some entry of the table carries this username. */
  ghost predicate UsernameTaken(users: seq<User>, username: JsValue)
  {
    exists i :: 0 <= i < |users| && users[i].username == username
  }

  /** No two entries of the table share a username. */
  ghost predicate UniqueUsernames(users: seq<User>)
  {
    forall i, j :: 0 <= i < j < |users| ==> users[i].username != users[j].username
  }

  /** No stored review is the empty string. */
  ghost predicate ReviewsNonEmpty(books: Catalogue)
  {
    forall isbn, name :: isbn in books && name in books[isbn].reviews ==> books[isbn].reviews[name] != ""
  }

  /** `users.find(matches)`, answered with the index of the first match. */
  function FindFirst(users: seq<User>, matches: User -> bool): (r: Option<nat>)
    ensures r.Some? ==> r.value < |users| && matches(users[r.value])
    ensures r.Some? ==> forall j :: 0 <= j < r.value ==> !matches(users[j])
    ensures r.None? <==> forall j :: 0 <= j < |users| ==> !matches(users[j])
    decreases |users|
  {
    if users == [] then None
    else if matches(users[0]) then Some(0)
    else match FindFirst(users[1..], matches)
      case None => None
      case Some(i) => Some(i + 1)
  }

  /** Appending a user whose name is not yet taken keeps names unique. */
  lemma AppendKeepsUnique(users: seq<User>, u: User)
    requires UniqueUsernames(users)
    requires !UsernameTaken(users, u.username)
    ensures UniqueUsernames(users + [u])
  {
  }

  /** The state shared by the public and the authenticated router. */
  class State {
    var users: seq<User>
    var books: Catalogue

    /** The invariant the handlers keep: usernames are unique and every
        stored review is non-empty. A map holds at most one review per user. */
    ghost predicate Valid()
      reads this
    {
      UniqueUsernames(users) && ReviewsNonEmpty(books)
    }

    /** Start-up: `let users = []` and the seed catalogue from booksdb.js. */
    constructor (seed: Catalogue)
      ensures users == [] && books == seed
      ensures ReviewsNonEmpty(seed) ==> Valid()
    {
      users := [];
      books := seed;
    }
  }
}

/**
 The public router (router/general.js): registration and the read-only
 catalogue queries.
 */
module General {
  import opened Values
  import opened Text
  import opened Store
  import AuthUsers

  /** `POST /register` with the body fields `username` and `password`. */
  method Register(db: State, username: JsValue, password: JsValue) returns (status: Status)
    modifies db`users
    ensures status.Code() in {201, 400, 409}
    ensures !Truthy(username) || !Truthy(password) ==> status == BadRequest && db.users == old(db.users)
    ensures Truthy(username) && Truthy(password) && UsernameTaken(old(db.users), username) ==>
      status == Conflict && db.users == old(db.users)
    ensures status == Created <==>
      Truthy(username) && Truthy(password) && !UsernameTaken(old(db.users), username)
    ensures status == Created ==> db.users == old(db.users) + [User(username, password)]
    ensures status == Created ==> UsernameTaken(db.users, username)
    ensures old(UniqueUsernames(db.users)) ==> UniqueUsernames(db.users)
    ensures old(db.Valid()) ==> db.Valid()
  {
    if !Truthy(username) || !Truthy(password) {
      return BadRequest;
    }
    var existing := FindFirst(db.users, (u: User) => u.username == username);
    if existing.Some? {
      return Conflict;
    }
    if UniqueUsernames(db.users) {
      AppendKeepsUnique(db.users, User(username, password));
    }
    db.users := db.users + [User(username, password)];
    assert db.users[|db.users| - 1].username == username;
    status := Created;
  }

  /** A client of the two routers: register, then log in with the same
      body. A string name that registers logs in; a name that is not a
      string registers (when truthy) but can never log in. */
  method RegisterThenLogin(db: State, username: JsValue, password: JsValue)
    returns (registered: Status, login: Reply<string>)
    modifies db`users
    ensures registered == Created && username.Str? ==> login == Success(username.s)
    ensures !username.Str? ==> login == Failure(BadRequest)
  {
    registered := Register(db, username, password);
    if registered == Created {
      assert db.users[|db.users| - 1] == User(username, password);
    }
    login := AuthUsers.Login(db, username, password);
  }

  /** `GET /isbn/:isbn`. */
  function GetBookByIsbn(db: State, isbn: string): (r: Reply<Book>)
    reads db
    ensures r.Success? <==> isbn in db.books
    ensures r.Success? ==> r.value == db.books[isbn]
    ensures r.Failure? ==> r.status == NotFound
    ensures r.Code() in {200, 404}
  {
    if isbn in db.books then Success(db.books[isbn]) else Failure(NotFound)
  }

  /** The settled state of a promise. */
  datatype Promise<T> = Resolved(value: T) | Rejected(message: string)

  /** The `getBookByISBN` promise both asynchronous routes build. */
  function BookPromise(db: State, isbn: string): (p: Promise<Book>)
    reads db
    ensures p.Resolved? <==> isbn in db.books
    ensures p.Resolved? ==> p.value == db.books[isbn]
  {
    if isbn in db.books then Resolved(db.books[isbn])
    else Rejected("Book not found with ISBN: " + isbn)
  }

  /** `GET /async/isbn/:isbn`: awaits the promise; the catch block answers
      404 for any rejection. */
  function AsyncGetBookByIsbn(db: State, isbn: string): (r: Reply<Book>)
    reads db
    ensures r == GetBookByIsbn(db, isbn)
  {
    var p := BookPromise(db, isbn);
    if p.Rejected? then Failure(NotFound) else Success(p.value)
  }

  /** `GET /promise/isbn/:isbn`: `.then` answers 200 with the book,
      `.catch` answers 404. */
  function PromiseGetBookByIsbn(db: State, isbn: string): (r: Reply<Book>)
    reads db
    ensures r == GetBookByIsbn(db, isbn)
  {
    match BookPromise(db, isbn)
    case Resolved(book) => Success(book)
    case Rejected(_) => Failure(NotFound)
  }

  /** A book's author equals the requested one, ignoring case. */
  predicate AuthorMatches(book: Book, author: string)
  {
    Lower(book.author) == Lower(author)
  }

  /** A book's title contains the requested text, ignoring case. */
  ghost predicate TitleMatches(book: Book, title: string)
  {
    IsSubstring(Lower(title), Lower(book.title))
  }

  /** `m` holds books of `books` with their entries unchanged. */
  ghost predicate SubMap(m: Catalogue, books: Catalogue)
  {
    forall isbn :: isbn in m ==> isbn in books && m[isbn] == books[isbn]
  }

  /** `GET /author/:author`: every book whose author matches, keyed by
      ISBN; 404 when there is none. */
  method GetBooksByAuthor(db: State, author: string) returns (r: Reply<Catalogue>)
    ensures r.Success? <==> exists isbn :: isbn in db.books && AuthorMatches(db.books[isbn], author)
    ensures r.Failure? ==> r.status == NotFound
    ensures r.Code() in {200, 404}
    ensures r.Success? ==> SubMap(r.value, db.books)
    ensures r.Success? ==> forall isbn :: isbn in db.books ==>
      (isbn in r.value <==> AuthorMatches(db.books[isbn], author))
  {
    var found: Catalogue := map[];
    var pending := db.books.Keys;
    while pending != {}
      invariant pending <= db.books.Keys
      invariant SubMap(found, db.books)
      invariant forall isbn :: isbn in db.books ==>
        (isbn in found <==> isbn !in pending && AuthorMatches(db.books[isbn], author))
      decreases pending
    {
      var isbn :| isbn in pending;
      if AuthorMatches(db.books[isbn], author) {
        found := found[isbn := db.books[isbn]];
      }
      pending := pending - {isbn};
    }
    if |found| > 0 {
      r := Success(found);
    } else {
      r := Failure(NotFound);
    }
  }

  /** `GET /title/:title`: every book whose title contains the request,
      keyed by ISBN; 404 when there is none. */
  method GetBooksByTitle(db: State, title: string) returns (r: Reply<Catalogue>)
    ensures r.Success? <==> exists isbn :: isbn in db.books && TitleMatches(db.books[isbn], title)
    ensures r.Failure? ==> r.status == NotFound
    ensures r.Code() in {200, 404}
    ensures r.Success? ==> SubMap(r.value, db.books)
    ensures r.Success? ==> forall isbn :: isbn in db.books ==>
      (isbn in r.value <==> TitleMatches(db.books[isbn], title))
  {
    var requested := Lower(title);
    var found: Catalogue := map[];
    var pending := db.books.Keys;
    while pending != {}
      invariant pending <= db.books.Keys
      invariant SubMap(found, db.books)
      invariant forall isbn :: isbn in db.books ==>
        (isbn in found <==> isbn !in pending && TitleMatches(db.books[isbn], title))
      decreases pending
    {
      var isbn :| isbn in pending;
      IncludesIsSubstring(Lower(db.books[isbn].title), requested);
      if Includes(Lower(db.books[isbn].title), requested) {
        found := found[isbn := db.books[isbn]];
      }
      pending := pending - {isbn};
    }
    if |found| > 0 {
      r := Success(found);
    } else {
      r := Failure(NotFound);
    }
  }

  /** `GET /review/:isbn`: the book's reviews, or 404 for an unknown ISBN
      and for a book without reviews. */
  function GetReviews(db: State, isbn: string): (r: Reply<map<string, string>>)
    reads db
    ensures r.Success? <==> isbn in db.books && db.books[isbn].reviews != map[]
    ensures r.Success? ==> r.value == db.books[isbn].reviews
    ensures r.Failure? ==> r.status == NotFound
    ensures r.Code() in {200, 404}
  {
    if isbn !in db.books then Failure(NotFound)
    else if |db.books[isbn].reviews| > 0 then Success(db.books[isbn].reviews)
    else Failure(NotFound)
  }

  /** The matching is case-insensitive: a query and its lower-case
      spelling select the same books. */
  lemma QueriesIgnoreCase(book: Book, query: string)
    ensures AuthorMatches(book, query) <==> AuthorMatches(book, Lower(query))
    ensures TitleMatches(book, query) <==> TitleMatches(book, Lower(query))
  {
    LowerIdempotent(query);
  }
}

/**
 The authenticated router (router/auth_users.js): the credential checks,
 the login decision and the review mutations. The bearer-token check in
 front of the authenticated routes is not modelled; its outcome, the username carried by
 the token, is a parameter of the review handlers.
 */
module AuthUsers {
  import opened Values
  import opened Store

  /** `isValid(username)`: the username is a non-empty string. */
  predicate IsValid(username: JsValue)
    ensures IsValid(username) <==> username.Str? && |username.s| > 0
  {
    Truthy(username) && username.Str? && |username.s| > 0
  }

  /** `authenticatedUser(username, password)`: some entry of the user
      table has both this username and this password. */
  predicate AuthenticatedUser(db: State, username: JsValue, password: JsValue)
    reads db
    ensures AuthenticatedUser(db, username, password) <==>
      exists i :: 0 <= i < |db.users| && db.users[i] == User(username, password)
  {
    var found := FindFirst(db.users, (u: User) => u.username == username && u.password == password);
    if found.Some? then
      assert db.users[found.value] == User(username, password);
      true
    else
      false
  }

  /** The decision of `POST /login`. On success the token is signed over
      the returned username; the login itself changes no state. */
  function Login(db: State, username: JsValue, password: JsValue): (r: Reply<string>)
    reads db
    ensures r.Code() in {200, 400, 401}
    ensures r == Failure(BadRequest) <==> !Truthy(username) || !Truthy(password) || !username.Str?
    ensures r == Failure(Unauthorized) <==>
      Truthy(password) && username.Str? && username.s != "" &&
      forall i :: 0 <= i < |db.users| ==> db.users[i] != User(username, password)
    ensures r.Success? <==>
      Truthy(password) && username.Str? && username.s != "" &&
      exists i :: 0 <= i < |db.users| && db.users[i] == User(username, password)
    ensures r.Success? ==> r.value == username.s
  {
    if !Truthy(username) || !Truthy(password) then Failure(BadRequest)
    else if !IsValid(username) then Failure(BadRequest)
    else if !AuthenticatedUser(db, username, password) then Failure(Unauthorized)
    else Success(username.s)
  }

  /** Whoever logs in is in the user table under a non-empty string name. */
  lemma LoginSubjectIsRegistered(db: State, username: JsValue, password: JsValue)
    requires Login(db, username, password).Success?
    ensures Login(db, username, password).value != ""
    ensures UsernameTaken(db.users, Str(Login(db, username, password).value))
  {
  }

  /** `PUT /auth/review/:isbn?review=...` by the user the token names. */
  method AddReview(db: State, isbn: string, username: string, review: Option<string>) returns (status: Status)
    modifies db`books
    ensures status.Code() in {200, 400, 404}
    ensures isbn == "" || review.None? || review == Some("") ==>
      status == BadRequest && db.books == old(db.books)
    ensures isbn != "" && review.Some? && review.value != "" && isbn !in old(db.books) ==>
      status == NotFound && db.books == old(db.books)
    ensures status == OK <==> isbn != "" && review.Some? && review.value != "" && isbn in old(db.books)
    ensures status == OK ==>
      && db.books.Keys == old(db.books).Keys
      && (forall k :: k in db.books && k != isbn ==> db.books[k] == old(db.books)[k])
      && db.books[isbn].title == old(db.books)[isbn].title
      && db.books[isbn].author == old(db.books)[isbn].author
      && db.books[isbn].reviews.Keys == old(db.books)[isbn].reviews.Keys + {username}
      && db.books[isbn].reviews[username] == review.value
      && (forall other :: other in old(db.books)[isbn].reviews && other != username ==>
            db.books[isbn].reviews[other] == old(db.books)[isbn].reviews[other])
    ensures old(ReviewsNonEmpty(db.books)) ==> ReviewsNonEmpty(db.books)
    ensures old(db.Valid()) ==> db.Valid()
  {
    if isbn == "" || review.None? || review.value == "" {
      return BadRequest;
    }
    if isbn !in db.books {
      return NotFound;
    }
    var book := db.books[isbn];
    db.books := db.books[isbn := book.(reviews := book.reviews[username := review.value])];
    status := OK;
  }

  /** `DELETE /auth/review/:isbn` by the user the token names. */
  method DeleteReview(db: State, isbn: string, username: string) returns (status: Status)
    modifies db`books
    ensures isbn !in old(db.books) ==> status == NotFound && db.books == old(db.books)
    ensures isbn in old(db.books) && (username !in old(db.books)[isbn].reviews || old(db.books)[isbn].reviews[username] == "") ==>
      status == NotFound && db.books == old(db.books)
    ensures status == OK <==>
      isbn in old(db.books) && username in old(db.books)[isbn].reviews && old(db.books)[isbn].reviews[username] != ""
    ensures old(ReviewsNonEmpty(db.books)) && isbn in old(db.books) ==>
      (status == OK <==> username in old(db.books)[isbn].reviews)
    ensures status == OK ==>
      && db.books.Keys == old(db.books).Keys
      && (forall k :: k in db.books && k != isbn ==> db.books[k] == old(db.books)[k])
      && db.books[isbn].title == old(db.books)[isbn].title
      && db.books[isbn].author == old(db.books)[isbn].author
      && db.books[isbn].reviews.Keys == old(db.books)[isbn].reviews.Keys - {username}
      && (forall other :: other in db.books[isbn].reviews ==>
            db.books[isbn].reviews[other] == old(db.books)[isbn].reviews[other])
    ensures status.Code() in {200, 404}
    ensures old(ReviewsNonEmpty(db.books)) ==> ReviewsNonEmpty(db.books)
    ensures old(db.Valid()) ==> db.Valid()
  {
    if isbn !in db.books {
      return NotFound;
    }
    var book := db.books[isbn];
    if username !in book.reviews || book.reviews[username] == "" {
      return NotFound;
    }
    db.books := db.books[isbn := book.(reviews := book.reviews - {username})];
    status := OK;
  }

  /** A user without a review on a book adds one and deletes it again:
      both calls succeed and the catalogue is as it was. */
  method AddThenDelete(db: State, isbn: string, username: string, review: string) returns (added: Status, deleted: Status)
    requires isbn != "" && review != ""
    requires isbn in db.books && username !in db.books[isbn].reviews
    modifies db`books
    ensures added == OK && deleted == OK
    ensures db.books == old(db.books)
  {
    ghost var before := db.books;
    added := AddReview(db, isbn, username, Some(review));
    deleted := DeleteReview(db, isbn, username);
    assert db.books[isbn].reviews == before[isbn].reviews;
    assert db.books[isbn] == before[isbn];
    assert db.books == before;
  }
}

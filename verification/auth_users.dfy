/** The registered-user router: the user registry with its two predicates,
    login, and the authenticated review handlers. */
module AuthUsers {
  import opened Wrappers
  import opened Http
  import opened BooksDb
  import Seqs

  datatype User = User(username: string, password: string)

  /** The in-memory `users` array, in insertion order. */
  type Users = seq<User>

  /** The registry starts out empty. */
  const InitialUsers: Users := []

  /** The usernames occurring in the registry. */
  ghost function Usernames(users: Users): set<string>
  {
    set i | 0 <= i < |users| :: users[i].username
  }

  /** Appending a user adds exactly its name to the set of usernames. */
  lemma UsernamesAppend(users: Users, user: User)
    ensures Usernames(users + [user]) == Usernames(users) + {user.username}
  {
    var users' := users + [user];
    forall n | n in Usernames(users')
      ensures n in Usernames(users) + {user.username}
    {
      var i :| 0 <= i < |users'| && users'[i].username == n;
      if i < |users| {
        assert users[i].username == n;
      }
    }
    forall n | n in Usernames(users) + {user.username}
      ensures n in Usernames(users')
    {
      if n == user.username {
        assert users'[|users|].username == n;
      } else {
        var i :| 0 <= i < |users| && users[i].username == n;
        assert users'[i].username == n;
      }
    }
  }

  /** `isValid(username)`: true when no registered user has that name, i.e.
      when the name is still free. */
  function IsValid(users: Users, username: string): (b: bool)
    ensures b <==> forall i :: 0 <= i < |users| ==> users[i].username != username
    ensures b <==> username !in Usernames(users)
  {
    var same := Seqs.Filter(users, (user: User) => user.username == username);
    if |same| > 0 then
      assert same[0] in users;
      false
    else
      Seqs.FilterEmpty(users, (user: User) => user.username == username);
      assert forall i :: 0 <= i < |users| ==> users[i] in users;
      true
  }

  /** `authenticatedUser(username, password)`: some registered user matches
      both fields exactly. */
  function AuthenticatedUser(users: Users, username: string, password: string): (b: bool)
    ensures b <==> exists i :: 0 <= i < |users| && users[i] == User(username, password)
  {
    var matching := Seqs.Filter(users, (user: User) => user.username == username && user.password == password);
    if |matching| > 0 then
      assert matching[0] in users;
      true
    else
      Seqs.FilterEmpty(users, (user: User) => user.username == username && user.password == password);
      assert forall i :: 0 <= i < |users| ==> users[i] in users;
      false
  }

  /** The opaque signed token returned by a successful login. */
  type Token = string

  /** The session's `authorization` record. */
  datatype Authorization = Authorization(accessToken: Token, username: string)

  type Session = Option<Authorization>

  datatype LoginOutcome =
    | LoggedIn(token: Token)
    | InvalidLogin
    | MissingCredentials
  {
    function Code(): int
    {
      match this
      case LoggedIn(_) => OK
      case InvalidLogin => ALREADY_REPORTED
      case MissingCredentials => NOT_FOUND
    }
  }

  /** `POST /customer/login`. The token that signing would produce is an
      input; the session record is set only on success. */
  function Login(users: Users, session: Session, username: Field, password: Field, token: Token)
    : (r: (Session, LoginOutcome))
    ensures r.1 == MissingCredentials <==> !Truthy(username) || !Truthy(password)
    ensures r.1 == InvalidLogin <==>
      && Truthy(username) && Truthy(password)
      && forall i :: 0 <= i < |users| ==> users[i] != User(username.value, password.value)
    ensures r.1.LoggedIn? ==> r.1.token == token && r.0 == Some(Authorization(token, username.value))
    ensures !r.1.LoggedIn? ==> r.0 == session
  {
    if !Truthy(username) || !Truthy(password) then
      (session, MissingCredentials)
    else if AuthenticatedUser(users, username.value, password.value) then
      (Some(Authorization(token, username.value)), LoggedIn(token))
    else
      (session, InvalidLogin)
  }

  datatype UpsertOutcome =
    | ReviewRequired
    | BookNotFound
    | Added
    | Modified
  {
    function Code(): int
    {
      match this
      case ReviewRequired => BAD_REQUEST
      case BookNotFound => NOT_FOUND
      case Added => OK
      case Modified => OK
    }
  }

  /** `PUT /customer/auth/review/:isbn`: adds or replaces the session user's
      review. The review text is checked before the book. */
  function UpsertReview(c: Catalog, isbn: string, review: Field, auth: Session): (r: (Catalog, UpsertOutcome))
    requires auth.Some?
    ensures !Truthy(review) ==> r == (c, ReviewRequired)
    ensures Truthy(review) && isbn !in c.books ==> r == (c, BookNotFound)
    ensures r.0.order == c.order && r.0.books.Keys == c.books.Keys
    ensures Truthy(review) && isbn in c.books ==>
      var user := auth.value.username;
      var before := c.books[isbn];
      var after := r.0.books[isbn];
      && (forall k :: k in c.books && k != isbn ==> r.0.books[k] == c.books[k])
      && after.title == before.title && after.author == before.author
      && after.reviews.Keys == before.reviews.Keys + {user}
      && after.reviews[user] == review.value
      && (forall u :: u in before.reviews && u != user ==> after.reviews[u] == before.reviews[u])
      && (r.1 == Modified <==> HasReview(before, user))
      && (r.1 == Added <==> !HasReview(before, user))
  {
    var user := auth.value.username;
    if !Truthy(review) then
      (c, ReviewRequired)
    else if isbn in c.books then
      var book := c.books[isbn];
      var updated := SetBook(c, isbn, book.(reviews := book.reviews[user := review.value]));
      if HasReview(book, user) then (updated, Modified) else (updated, Added)
    else
      (c, BookNotFound)
  }

  datatype DeleteOutcome =
    | BookMissing
    | ReviewMissing
    | Deleted
  {
    function Code(): int
    {
      match this
      case BookMissing => NOT_FOUND
      case ReviewMissing => NOT_FOUND
      case Deleted => OK
    }
  }

  /** `DELETE /customer/auth/review/:isbn`: removes the session user's review. */
  function DeleteReview(c: Catalog, isbn: string, auth: Session): (r: (Catalog, DeleteOutcome))
    requires auth.Some?
    ensures isbn !in c.books ==> r == (c, BookMissing)
    ensures isbn in c.books && !HasReview(c.books[isbn], auth.value.username) ==> r == (c, ReviewMissing)
    ensures r.0.order == c.order && r.0.books.Keys == c.books.Keys
    ensures isbn in c.books && HasReview(c.books[isbn], auth.value.username) ==>
      var user := auth.value.username;
      var before := c.books[isbn];
      var after := r.0.books[isbn];
      && r.1 == Deleted
      && (forall k :: k in c.books && k != isbn ==> r.0.books[k] == c.books[k])
      && after.title == before.title && after.author == before.author
      && after.reviews.Keys == before.reviews.Keys - {user}
      && (forall u :: u in after.reviews ==> after.reviews[u] == before.reviews[u])
  {
    var user := auth.value.username;
    if isbn in c.books then
      var book := c.books[isbn];
      if HasReview(book, user) then
        (SetBook(c, isbn, book.(reviews := book.reviews - {user})), Deleted)
      else
        (c, ReviewMissing)
    else
      (c, BookMissing)
  }

  /** Both review handlers keep every stored review text non-empty. */
  lemma ReviewHandlersKeepReviewsNonEmpty(c: Catalog, isbn: string, review: Field, auth: Session)
    requires auth.Some? && ReviewsNonEmpty(c)
    ensures ReviewsNonEmpty(UpsertReview(c, isbn, review, auth).0)
    ensures ReviewsNonEmpty(DeleteReview(c, isbn, auth).0)
  {
  }

  /** For a user with no review on a book, adding one and deleting it again
      gives back the original catalog. */
  lemma {:induction false} UpsertThenDeleteRestores(c: Catalog, isbn: string, review: Field, auth: Session)
    requires auth.Some? && isbn in c.books && Truthy(review)
    requires auth.value.username !in c.books[isbn].reviews
    ensures UpsertReview(c, isbn, review, auth).1 == Added
    ensures DeleteReview(UpsertReview(c, isbn, review, auth).0, isbn, auth) == (c, Deleted)
  {
    var user := auth.value.username;
    var before := c.books[isbn].reviews;
    var mid := UpsertReview(c, isbn, review, auth).0;
    var after := DeleteReview(mid, isbn, auth).0;
    assert after.books[isbn].reviews == before;
    assert after.books[isbn] == c.books[isbn];
    assert after.books == c.books;
  }

  /** A second review by the same user reports Modified and replaces the
      first; the user still has exactly one entry. */
  lemma UpsertTwiceModifies(c: Catalog, isbn: string, first: Field, second: Field, auth: Session)
    requires auth.Some? && isbn in c.books && Truthy(first) && Truthy(second)
    ensures var c1 := UpsertReview(c, isbn, first, auth).0;
      var (c2, out) := UpsertReview(c1, isbn, second, auth);
      && out == Modified
      && c2.books[isbn].reviews[auth.value.username] == second.value
      && c2.books[isbn].reviews.Keys == c1.books[isbn].reviews.Keys
  {
  }
}

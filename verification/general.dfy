/** The public router: registration and the read-only catalog queries. */
module General {
  import opened Wrappers
  import opened Http
  import opened BooksDb
  import opened AuthUsers
  import Seqs
  import Text

  datatype RegisterOutcome =
    | Registered
    | UsernameTaken
    | MissingFields
  {
    function Code(): int
    {
      match this
      case Registered => OK
      case UsernameTaken => CONFLICT
      case MissingFields => BAD_REQUEST
    }
  }

  /** `POST /register`, as written: the user is pushed when `isValid` is
      FALSE, that is when the name is already registered, and a free name
      is answered with 409. */
  function Register(users: Users, username: Field, password: Field): (r: (Users, RegisterOutcome))
    ensures !Truthy(username) || !Truthy(password) ==> r == (users, MissingFields)
    ensures Truthy(username) && Truthy(password) && username.value !in Usernames(users) ==>
      r == (users, UsernameTaken)
    ensures Truthy(username) && Truthy(password) && username.value in Usernames(users) ==>
      r == (users + [User(username.value, password.value)], Registered)
    ensures Usernames(r.0) == Usernames(users)
  {
    if Truthy(username) && Truthy(password) then
      if !IsValid(users, username.value) then
        var users' := users + [User(username.value, password.value)];
        UsernamesAppend(users, User(username.value, password.value));
        (users', Registered)
      else
        (users, UsernameTaken)
    else
      (users, MissingFields)
  }

  /** No username is ever registered while the registry is empty. */
  lemma RegisterOnEmptyRegistry(username: Field, password: Field)
    ensures Register(InitialUsers, username, password).0 == InitialUsers
    ensures Truthy(username) && Truthy(password) ==>
      Register(InitialUsers, username, password).1 == UsernameTaken
  {
  }

  /** Usernames are pairwise distinct. */
  ghost predicate UniqueUsernames(users: Users)
  {
    forall i, j :: 0 <= i < j < |users| ==> users[i].username != users[j].username
  }

  /** `POST /register` as its comments describe it: a free name is added, a
      taken name is answered with 409. */
  function RegisterIntended(users: Users, username: Field, password: Field): (r: (Users, RegisterOutcome))
    ensures !Truthy(username) || !Truthy(password) ==> r == (users, MissingFields)
    ensures Truthy(username) && Truthy(password) && username.value in Usernames(users) ==>
      r == (users, UsernameTaken)
    ensures Truthy(username) && Truthy(password) && username.value !in Usernames(users) ==>
      r == (users + [User(username.value, password.value)], Registered)
    ensures r.1 == Registered ==> Usernames(r.0) == Usernames(users) + {username.value}
    ensures UniqueUsernames(users) ==> UniqueUsernames(r.0)
  {
    if Truthy(username) && Truthy(password) then
      if IsValid(users, username.value) then
        var users' := users + [User(username.value, password.value)];
        UsernamesAppend(users, User(username.value, password.value));
        (users', Registered)
      else
        (users, UsernameTaken)
    else
      (users, MissingFields)
  }

  /** The written handler rejects a fresh name that the intended one accepts. */
  lemma RegisterRejectsFreshName()
    ensures Register([], Some("bob"), Some("pw")) == ([], UsernameTaken)
    ensures RegisterIntended([], Some("bob"), Some("pw")) == ([User("bob", "pw")], Registered)
  {
    var none: Users := [];
    assert Usernames(none) == {};
    assert Truthy(Some("bob")) && Truthy(Some("pw"));
    assert none + [User("bob", "pw")] == [User("bob", "pw")];
  }

  /** `getBooksDataWithCallback` and `GET /`: the whole catalog object. The
      error branch needs an absent catalog, which cannot occur. */
  function ListBooks(c: Catalog): (all: Result<Catalog, string>)
  {
    Ok(c)
  }

  /** `getBookByIsbn` and `GET /isbn/:isbn`. */
  function BookByIsbn(c: Catalog, isbn: string): (r: Result<Book, string>)
    ensures r.Ok? <==> isbn in c.books
    ensures r.Ok? ==> r.value == c.books[isbn]
  {
    if isbn in c.books then Ok(c.books[isbn]) else Err("Book with ISBN " + isbn + " not found.")
  }

  /** The matching relation of a filter over the catalog: `r` is exactly the
      catalog's records satisfying `p`, in key enumeration order. */
  ghost predicate ExactMatches(r: seq<Book>, c: Catalog, p: Book -> bool)
  {
    && Seqs.IsSubsequence(r, Values(c))
    && (forall b :: b in r ==> p(b))
    && (forall b :: b in Values(c) && p(b) ==> multiset(r)[b] == multiset(Values(c))[b])
  }

  /** Shared shape of the author and title queries: filter, then reject an
      empty answer. */
  function Query(c: Catalog, p: Book -> bool, notFound: string): (r: Result<seq<Book>, string>)
    ensures r.Err? <==> forall k :: k in c.books ==> !p(c.books[k])
    ensures r.Ok? ==> ExactMatches(r.value, c, p) && r.value != []
  {
    var matching := Seqs.Filter(Values(c), p);
    Seqs.FilterEmpty(Values(c), p);
    if |matching| > 0 then Ok(matching) else Err(notFound)
  }

  /** `book.author === author`. */
  predicate AuthorIs(author: string, b: Book)
  {
    b.author == author
  }

  /** `getBooksByAuthor` and `GET /author/:author`: exact author match. */
  function BooksByAuthor(c: Catalog, author: string): (r: Result<seq<Book>, string>)
    ensures r.Err? <==> forall k :: k in c.books ==> c.books[k].author != author
    ensures r.Ok? ==> ExactMatches(r.value, c, b => AuthorIs(author, b))
    ensures r.Ok? ==> forall b :: b in r.value ==> b.author == author
  {
    Query(c, b => AuthorIs(author, b), "No books found by author: " + author + ".")
  }

  /** `book.title.toLowerCase().includes(title.toLowerCase())`. */
  predicate TitleContains(title: string, b: Book)
  {
    Text.Includes(Text.Lower(b.title), Text.Lower(title))
  }

  /** The title test as a function value, shared by the query and its lemmas. */
  function TitleMatcher(title: string): (matches: Book -> bool)
  {
    b => TitleContains(title, b)
  }

  /** `getBooksByTitle` and `GET /title/:title`: case-insensitive substring
      match on the title. */
  function BooksByTitle(c: Catalog, title: string): (r: Result<seq<Book>, string>)
    ensures r.Err? <==> forall k :: k in c.books ==> !Text.IsSubstring(Text.Lower(title), Text.Lower(c.books[k].title))
    ensures r.Ok? ==> ExactMatches(r.value, c, TitleMatcher(title))
    ensures r.Ok? ==> forall b :: b in r.value ==> Text.IsSubstring(Text.Lower(title), Text.Lower(b.title))
  {
    var r := Query(c, TitleMatcher(title), "No books found with title containing: " + title + ".");
    forall b: Book ensures TitleContains(title, b) <==> Text.IsSubstring(Text.Lower(title), Text.Lower(b.title)) {
      Text.IncludesIsSubstring(Text.Lower(b.title), Text.Lower(title));
    }
    r
  }

  datatype ReviewsOutcome =
    | NoSuchBook
    | NoReviews
    | Reviews(reviews: map<string, string>)
  {
    function Code(): int
    {
      match this
      case NoSuchBook => NOT_FOUND
      case NoReviews => NOT_FOUND
      case Reviews(_) => OK
    }
  }

  /** `GET /review/:isbn`: distinguishes an unknown book from a book without
      reviews. */
  function GetReviews(c: Catalog, isbn: string): (r: ReviewsOutcome)
    ensures r == NoSuchBook <==> isbn !in c.books
    ensures r == NoReviews <==> isbn in c.books && c.books[isbn].reviews == map[]
    ensures r.Reviews? ==> isbn in c.books && r.reviews == c.books[isbn].reviews && |r.reviews| > 0
  {
    if isbn in c.books then
      var book := c.books[isbn];
      if |book.reviews.Keys| > 0 then Reviews(book.reviews) else NoReviews
    else
      NoSuchBook
  }

  /** With the intended handler, registering a fresh name succeeds once and
      then conflicts. */
  lemma RegisterIntendedTwice(users: Users, username: Field, password: Field, password2: Field)
    requires Truthy(username) && Truthy(password) && Truthy(password2)
    requires username.value !in Usernames(users)
    ensures RegisterIntended(users, username, password).1 == Registered
    ensures var users' := RegisterIntended(users, username, password).0;
      RegisterIntended(users', username, password2) == (users', UsernameTaken)
  {
    UsernamesAppend(users, User(username.value, password.value));
  }

  /** The title query depends on the query only up to letter case. */
  lemma TitleQueryIgnoresCase(c: Catalog, title: string)
    ensures BooksByTitle(c, Text.Lower(title)).Ok? == BooksByTitle(c, title).Ok?
    ensures BooksByTitle(c, title).Ok? ==> BooksByTitle(c, Text.Lower(title)).value == BooksByTitle(c, title).value
  {
    Text.LowerIdempotent(title);
    var p1 := TitleMatcher(Text.Lower(title));
    var p2 := TitleMatcher(title);
    assert forall b :: p1(b) == p2(b);
    var r1 := Seqs.Filter(Values(c), p1);
    Seqs.FilterUnique(Values(c), p2, r1);
  }

  /** After a successful delete, the user's review is no longer listed. */
  lemma DeletedReviewNotListed(c: Catalog, isbn: string, auth: Session)
    requires auth.Some? && isbn in c.books && HasReview(c.books[isbn], auth.value.username)
    ensures var out := GetReviews(DeleteReview(c, isbn, auth).0, isbn);
      out != NoSuchBook && (out.Reviews? ==> auth.value.username !in out.reviews)
  {
  }
}

/** The service as a whole: one state (registry, catalog, one session
    record), the request dispatch of both routers behind the authentication
    gate, and what holds along every sequence of requests. */
module Server {
  import opened Wrappers
  import opened Http
  import opened BooksDb
  import AU = AuthUsers
  import G = General

  /** Which registration handler the server runs: the one in the code, or
      the one its comments describe. */
  datatype Build = AsWritten | Intended

  datatype State = State(users: AU.Users, catalog: Catalog, session: AU.Session)

  /** Process start: the seeded catalog, no users, no session. */
  function Init(c: Catalog): (s: State)
  {
    State(AU.InitialUsers, c, None)
  }

  /** The requests the two routers serve. For the authenticated paths,
      `verified` is the outcome of checking the session's token signature and
      expiry, which this model takes as given. */
  datatype Request =
    | PostRegister(username: Field, password: Field)
    | PostLogin(username: Field, password: Field, token: AU.Token)
    | GetAll
    | GetIsbn(isbn: string)
    | GetAuthor(author: string)
    | GetTitle(title: string)
    | GetReview(isbn: string)
    | PutReview(isbn: string, review: Field, verified: bool)
    | DeleteReview(isbn: string, verified: bool)
  {
    predicate IsRead()
    {
      GetAll? || GetIsbn? || GetAuthor? || GetTitle? || GetReview?
    }

    predicate IsAuthenticated()
    {
      PutReview? || DeleteReview?
    }
  }

  /** What a `{message}` body reports: the handler's outcome, which the
      message text names ("added", "modified", "No reviews found", ...). */
  datatype Note =
    | RegisterNote(register: G.RegisterOutcome)
    | LoginNote(login: AU.LoginOutcome)
    | ReviewsNote(lookup: G.ReviewsOutcome)
    | UpsertNote(upsert: AU.UpsertOutcome)
    | DeleteNote(delete: AU.DeleteOutcome)
    | BookNotFound
    | NoMatches
    | FetchFailed
    | NotLoggedIn
    | TokenInvalid

  datatype Body =
    | Message(note: Note)
    | TokenBody(token: AU.Token)
    | CatalogBody(catalog: Catalog)
    | BookBody(book: Book)
    | BooksBody(books: seq<Book>)
    | ReviewsBody(reviews: map<string, string>)

  datatype Response = Response(code: int, body: Body)

  /** The gate in front of the `/customer/auth/` paths: a session record
      must exist and its token must verify. */
  function GatePasses(s: State, req: Request): (passes: bool)
    requires req.IsAuthenticated()
    ensures passes ==> s.session.Some?
    ensures !req.verified ==> !passes
    ensures s.session.Some? && req.verified ==> passes
  {
    s.session.Some? && req.verified
  }

  /** The registration handler the build runs. */
  function Registration(build: Build, users: AU.Users, username: Field, password: Field)
    : (AU.Users, G.RegisterOutcome)
  {
    if build == AsWritten then G.Register(users, username, password)
    else G.RegisterIntended(users, username, password)
  }

  /** The response of a query answering a list of books. */
  function AnswerBooks(found: Result<seq<Book>, string>): Response
  {
    match found
    case Ok(books) => Response(OK, BooksBody(books))
    case Err(_) => Response(NOT_FOUND, Message(NoMatches))
  }

  /** Serves one read request of the public router. */
  function ServeRead(c: Catalog, req: Request): (resp: Response)
    requires req.IsRead()
    ensures req.GetAll? ==> resp == Response(OK, CatalogBody(c))
    ensures req.GetIsbn? && req.isbn in c.books ==> resp == Response(OK, BookBody(c.books[req.isbn]))
    ensures req.GetIsbn? && req.isbn !in c.books ==> resp == Response(NOT_FOUND, Message(BookNotFound))
    ensures req.GetAuthor? ==> resp == AnswerBooks(G.BooksByAuthor(c, req.author))
    ensures req.GetTitle? ==> resp == AnswerBooks(G.BooksByTitle(c, req.title))
    ensures req.GetReview? && G.GetReviews(c, req.isbn).Reviews? ==>
      resp == Response(OK, ReviewsBody(c.books[req.isbn].reviews))
    ensures req.GetReview? && !G.GetReviews(c, req.isbn).Reviews? ==>
      resp == Response(NOT_FOUND, Message(ReviewsNote(G.GetReviews(c, req.isbn))))
  {
    match req
    case GetAll =>
      (match G.ListBooks(c)
       case Ok(all) => Response(OK, CatalogBody(all))
       case Err(_) => Response(SERVER_ERROR, Message(FetchFailed)))
    case GetIsbn(isbn) =>
      (match G.BookByIsbn(c, isbn)
       case Ok(book) => Response(OK, BookBody(book))
       case Err(_) => Response(NOT_FOUND, Message(BookNotFound)))
    case GetAuthor(author) => AnswerBooks(G.BooksByAuthor(c, author))
    case GetTitle(title) => AnswerBooks(G.BooksByTitle(c, title))
    case GetReview(isbn) =>
      var out := G.GetReviews(c, isbn);
      Response(out.Code(), if out.Reviews? then ReviewsBody(out.reviews) else Message(ReviewsNote(out)))
  }

  /** Serves one request. */
  function Step(build: Build, s: State, req: Request): (r: (State, Response))
    ensures req.IsRead() ==> r == (s, ServeRead(s.catalog, req))
    ensures req.IsAuthenticated() && s.session.None? ==> r == (s, Response(FORBIDDEN, Message(NotLoggedIn)))
    ensures req.IsAuthenticated() && s.session.Some? && !req.verified ==>
      r == (s, Response(FORBIDDEN, Message(TokenInvalid)))
    ensures req.PutReview? && GatePasses(s, req) ==>
      var (catalog', out) := AU.UpsertReview(s.catalog, req.isbn, req.review, s.session);
      r == (s.(catalog := catalog'), Response(out.Code(), Message(UpsertNote(out))))
    ensures req.DeleteReview? && GatePasses(s, req) ==>
      var (catalog', out) := AU.DeleteReview(s.catalog, req.isbn, s.session);
      r == (s.(catalog := catalog'), Response(out.Code(), Message(DeleteNote(out))))
    ensures req.PostRegister? ==>
      var (users', out) := Registration(build, s.users, req.username, req.password);
      r == (s.(users := users'), Response(out.Code(), Message(RegisterNote(out))))
    ensures req.PostLogin? ==>
      var (session', out) := AU.Login(s.users, s.session, req.username, req.password, req.token);
      && r.0 == s.(session := session') && r.1.code == out.Code()
      && r.1.body == (if out.LoggedIn? then TokenBody(req.token) else Message(LoginNote(out)))
    ensures !req.PostRegister? ==> r.0.users == s.users
    ensures build == AsWritten ==> AU.Usernames(r.0.users) == AU.Usernames(s.users)
    ensures r.0.session != s.session ==> req.PostLogin? && r.1.code == OK
    ensures r.0.catalog != s.catalog ==> req.IsAuthenticated() && GatePasses(s, req) && r.1.code == OK
  {
    match req
    case PostRegister(username, password) =>
      var (users', out) := Registration(build, s.users, username, password);
      (s.(users := users'), Response(out.Code(), Message(RegisterNote(out))))
    case PostLogin(username, password, token) =>
      var (session', out) := AU.Login(s.users, s.session, username, password, token);
      (s.(session := session'), Response(out.Code(), if out.LoggedIn? then TokenBody(out.token) else Message(LoginNote(out))))
    case PutReview(isbn, review, verified) =>
      if s.session.None? then (s, Response(FORBIDDEN, Message(NotLoggedIn)))
      else if !verified then (s, Response(FORBIDDEN, Message(TokenInvalid)))
      else
        var (catalog', out) := AU.UpsertReview(s.catalog, isbn, review, s.session);
        (s.(catalog := catalog'), Response(out.Code(), Message(UpsertNote(out))))
    case DeleteReview(isbn, verified) =>
      if s.session.None? then (s, Response(FORBIDDEN, Message(NotLoggedIn)))
      else if !verified then (s, Response(FORBIDDEN, Message(TokenInvalid)))
      else
        var (catalog', out) := AU.DeleteReview(s.catalog, isbn, s.session);
        (s.(catalog := catalog'), Response(out.Code(), Message(DeleteNote(out))))
    case _ =>
      (s, ServeRead(s.catalog, req))
  }

  /** After a successful login, a verified review request acts as the user
      who logged in: the upsert runs under that username. */
  lemma LoginThenReviewActsAsUser(build: Build, s: State, username: Field, password: Field,
                                  token: AU.Token, isbn: string, review: Field)
    requires Step(build, s, PostLogin(username, password, token)).1.code == OK
    ensures var s1 := Step(build, s, PostLogin(username, password, token)).0;
      var auth := Some(AU.Authorization(token, username.value));
      && Truthy(username) && Truthy(password)
      && s1.session == auth
      && var (catalog', out) := AU.UpsertReview(s1.catalog, isbn, review, auth);
         Step(build, s1, PutReview(isbn, review, true))
           == (s1.(catalog := catalog'), Response(out.Code(), Message(UpsertNote(out))))
  {
  }

  /** Serves a sequence of requests in order; returns the final state. */
  function Run(build: Build, s: State, reqs: seq<Request>): (last: State)
    decreases |reqs|
  {
    if reqs == [] then s else Run(build, Step(build, s, reqs[0]).0, reqs[1..])
  }

  /** `GET /` answers with the whole catalog and changes nothing. */
  lemma ListingReturnsCatalog(build: Build, s: State)
    ensures Step(build, s, GetAll) == (s, Response(OK, CatalogBody(s.catalog)))
  {
  }

  // ---------------------------------------------------------------------
  // The server as written

  /** As written, no request ever changes the set of registered names. */
  lemma {:induction false} RunKeepsUsernames(s: State, reqs: seq<Request>)
    ensures AU.Usernames(Run(AsWritten, s, reqs).users) == AU.Usernames(s.users)
    decreases |reqs|
  {
    if reqs != [] {
      RunKeepsUsernames(Step(AsWritten, s, reqs[0]).0, reqs[1..]);
    }
  }

  /** An empty registry is the only registry with no usernames. */
  lemma NoUsernamesMeansEmpty(users: AU.Users)
    ensures AU.Usernames(users) == {} <==> users == []
  {
    if users != [] {
      assert users[0].username in AU.Usernames(users);
    }
  }

  /** As written, the registry started empty stays empty whatever is sent. */
  lemma RegistryStaysEmpty(c: Catalog, reqs: seq<Request>)
    ensures Run(AsWritten, Init(c), reqs).users == []
  {
    RunKeepsUsernames(Init(c), reqs);
    NoUsernamesMeansEmpty([]);
    NoUsernamesMeansEmpty(Run(AsWritten, Init(c), reqs).users);
  }

  /** As written, the initial state is never left: nobody can register, so
      nobody can log in, so the gate refuses every review change. */
  lemma {:induction false} AsWrittenServerIsFrozen(c: Catalog, reqs: seq<Request>)
    ensures Run(AsWritten, Init(c), reqs) == Init(c)
    decreases |reqs|
  {
    if reqs != [] {
      var s := Init(c);
      var req := reqs[0];
      match req {
        case PostRegister(u, p) =>
          G.RegisterOnEmptyRegistry(u, p);
        case _ =>
      }
      assert Step(AsWritten, s, req).0 == s;
      AsWrittenServerIsFrozen(c, reqs[1..]);
    }
  }

  /** As written, a login with both fields present always answers 208. */
  lemma LoginAlwaysRejected(c: Catalog, reqs: seq<Request>, username: Field, password: Field, token: AU.Token)
    requires Truthy(username) && Truthy(password)
    ensures Step(AsWritten, Run(AsWritten, Init(c), reqs), PostLogin(username, password, token)).1
      == Response(ALREADY_REPORTED, Message(LoginNote(AU.InvalidLogin)))
  {
    AsWrittenServerIsFrozen(c, reqs);
  }

  // ---------------------------------------------------------------------
  // The server with the intended registration

  /** What every reachable state keeps: unique usernames, a session user who
      is registered, and non-empty review texts. */
  ghost predicate Consistent(s: State)
  {
    && G.UniqueUsernames(s.users)
    && (s.session.Some? ==> s.session.value.username in AU.Usernames(s.users))
    && ReviewsNonEmpty(s.catalog)
  }

  lemma StepKeepsConsistent(s: State, req: Request)
    requires Consistent(s)
    ensures Consistent(Step(Intended, s, req).0)
  {
    var s' := Step(Intended, s, req).0;
    match req {
    case PostRegister(u, p) =>
      if s'.session.Some? {
        var (users', out) := G.RegisterIntended(s.users, u, p);
        if out == G.Registered {
          assert AU.Usernames(s.users) <= AU.Usernames(users');
        }
      }
    case PostLogin(u, p, t) =>
      if s'.session != s.session {
        var i :| 0 <= i < |s.users| && s.users[i] == AU.User(u.value, p.value);
        assert s.users[i].username == u.value;
      }
    case PutReview(isbn, review, verified) =>
      if GatePasses(s, req) {
        AU.ReviewHandlersKeepReviewsNonEmpty(s.catalog, isbn, review, s.session);
      }
    case DeleteReview(isbn, verified) =>
      if GatePasses(s, req) {
        AU.ReviewHandlersKeepReviewsNonEmpty(s.catalog, isbn, None, s.session);
      }
    case _ =>
    }
  }

  /** The initial state is consistent when the seed's review texts are all
      non-empty. */
  lemma InitConsistent(c: Catalog)
    requires ReviewsNonEmpty(c)
    ensures Consistent(Init(c))
  {
  }

  /** With the intended registration, consistency holds after any sequence
      of requests; by `InitConsistent`, in particular from `Init(c)`
      whenever the seed's review texts are all non-empty. */
  lemma {:induction false} RunKeepsConsistent(s: State, reqs: seq<Request>)
    requires Consistent(s)
    ensures Consistent(Run(Intended, s, reqs))
    decreases |reqs|
  {
    if reqs != [] {
      StepKeepsConsistent(s, reqs[0]);
      RunKeepsConsistent(Step(Intended, s, reqs[0]).0, reqs[1..]);
    }
  }

  /** The one-book seed of the end-to-end example. */
  function ExampleCatalog(): (c: Catalog)
    ensures c.books.Keys == {"1"}
  {
    Store(["1"], map["1" := Book("Things Fall Apart", "Chinua Achebe", map[])])
  }

  /** The same catalog once bob has reviewed the book. */
  function ReviewedCatalog(): (c: Catalog)
    ensures c.books.Keys == {"1"}
  {
    Store(["1"], map["1" := Book("Things Fall Apart", "Chinua Achebe", map["bob" := "Great"])])
  }

  const Bob: AU.User := AU.User("bob", "pw")

  lemma ExampleNoReviewsYet()
    ensures Step(Intended, Init(ExampleCatalog()), GetReview("1")).1
      == Response(NOT_FOUND, Message(ReviewsNote(G.NoReviews)))
  {
    assert G.GetReviews(ExampleCatalog(), "1") == G.NoReviews;
  }

  lemma ExampleRegister()
    ensures Step(Intended, Init(ExampleCatalog()), PostRegister(Some("bob"), Some("pw")))
      == (State([Bob], ExampleCatalog(), None), Response(OK, Message(RegisterNote(G.Registered))))
    ensures Step(AsWritten, Init(ExampleCatalog()), PostRegister(Some("bob"), Some("pw")))
      == (Init(ExampleCatalog()), Response(CONFLICT, Message(RegisterNote(G.UsernameTaken))))
  {
    G.RegisterRejectsFreshName();
  }

  lemma ExampleLogin(token: AU.Token)
    ensures Step(Intended, State([Bob], ExampleCatalog(), None), PostLogin(Some("bob"), Some("pw"), token))
      == (State([Bob], ExampleCatalog(), Some(AU.Authorization(token, "bob"))), Response(OK, TokenBody(token)))
  {
    assert AU.AuthenticatedUser([Bob], "bob", "pw");
  }

  lemma ExampleAddReview(token: AU.Token)
    ensures var auth := Some(AU.Authorization(token, "bob"));
      Step(Intended, State([Bob], ExampleCatalog(), auth), PutReview("1", Some("Great"), true))
      == (State([Bob], ReviewedCatalog(), auth), Response(OK, Message(UpsertNote(AU.Added))))
  {
    var auth := Some(AU.Authorization(token, "bob"));
    var (c', out) := AU.UpsertReview(ExampleCatalog(), "1", Some("Great"), auth);
    assert out == AU.Added;
    assert c'.books["1"] == ReviewedCatalog().books["1"];
    assert c'.books == ReviewedCatalog().books;
  }

  lemma ExampleReviewListed(token: AU.Token)
    ensures Step(Intended, State([Bob], ReviewedCatalog(), Some(AU.Authorization(token, "bob"))), GetReview("1")).1
      == Response(OK, ReviewsBody(map["bob" := "Great"]))
  {
    assert |map["bob" := "Great"].Keys| == 1;
  }

  /** End-to-end: the book has no reviews yet (404 "no reviews"); bob
      registers (200), logs in (200 with the token) and adds a review (200
      "added"), which is then listed. As written, the registration is
      refused with 409 and nothing changes. */
  lemma EndToEndExample(token: AU.Token)
    ensures var s0 := Init(ExampleCatalog());
      var s1 := Step(Intended, s0, PostRegister(Some("bob"), Some("pw")));
      var s2 := Step(Intended, s1.0, PostLogin(Some("bob"), Some("pw"), token));
      var s3 := Step(Intended, s2.0, PutReview("1", Some("Great"), true));
      && Step(Intended, s0, GetReview("1")).1 == Response(NOT_FOUND, Message(ReviewsNote(G.NoReviews)))
      && s1.1 == Response(OK, Message(RegisterNote(G.Registered)))
      && s2.1 == Response(OK, TokenBody(token))
      && s3.1 == Response(OK, Message(UpsertNote(AU.Added)))
      && Step(Intended, s3.0, GetReview("1")).1 == Response(OK, ReviewsBody(map["bob" := "Great"]))
    ensures Step(AsWritten, Init(ExampleCatalog()), PostRegister(Some("bob"), Some("pw")))
      == (Init(ExampleCatalog()), Response(CONFLICT, Message(RegisterNote(G.UsernameTaken))))
  {
    ExampleNoReviewsYet();
    ExampleRegister();
    ExampleLogin(token);
    ExampleAddReview(token);
    ExampleReviewListed(token);
  }
}

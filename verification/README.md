# Online book review service: a verified model

This project models the domain logic of a small in-memory bookstore service
in Dafny. It covers:

- the user registry (`users`) and its two predicates, `isValid` and
  `authenticatedUser`;
- login;
- self-registration;
- the read-only catalog queries: list all, by ISBN, by author, by title,
  and reviews of one book;
- the authenticated handlers that add, modify and delete the session user's
  review.

Each request handler is a pure function from the current state and the
request's inputs to a new state and an outcome. Every outcome has a
`Code()` that gives its HTTP status.

Modules:

- `Wrappers`: `Option` and `Result`.
- `Http`: request fields as `Option<string>`, JavaScript truthiness of a
  field, and the status codes.
- `Text`: ASCII lower-casing, and `Includes`, the left-to-right scan that
  `String.prototype.includes` performs. `Includes` is proved equal to an
  existential definition of "is a substring".
- `Seqs`: `Filter`, the model of `Array.prototype.filter`. Its contract is
  stated through subsequence and multiplicity, and `FilterUnique` proves
  that this contract has exactly one solution.
- `BooksDb`: the shared catalog. It is an ordered list of ISBNs plus a map
  from ISBN to `Book(title, author, reviews)`, kept well formed by a subset
  type. The key order stands for the enumeration order of
  `Object.values(books)`.
- `AuthUsers` (router/auth_users.js): the registry, `IsValid`,
  `AuthenticatedUser`, `Login`, `UpsertReview` and `DeleteReview`.
- `General` (router/general.js): `Register`, `BookByIsbn`, `BooksByAuthor`,
  `BooksByTitle`, `ListBooks` and `GetReviews`.
- `Server`: one state (registry, catalog, one session record), a dispatch
  `Step` covering both routers and the authentication gate of index.js, and
  `Run` over a sequence of requests.

The registration handler is modelled as written. It pushes a user when
`isValid` is false, that is, when the name is already taken, and it
answers 409 to a free name. The registry starts empty, so the written
server can never register anybody. `Server.AsWrittenServerIsFrozen` proves
the consequence: from the initial state, no sequence of requests changes
anything. The registry stays empty, no login succeeds (every login with
both fields present answers 208), and every review change is refused at
the gate.

`Server.Step` takes a `Build`:

- `AsWritten` runs the handler as written.
- `Intended` runs `General.RegisterIntended`, the corrected handler (see
  Findings).

For the intended build, the model proves the following:

- usernames stay unique;
- the session user is always a registered user;
- stored review texts stay non-empty;
- bob can register, log in, add a review ("added") and then see it listed,
  starting from a one-book catalog whose reviews map is empty.

Facts about the code that the model keeps:

- Registration is inverted, as described above.
- A login with a missing field answers 404.
- A failed login answers 208.
- The review upsert checks the review text (400) before it checks that the
  book exists (404), so a missing review answers 400 even for an unknown
  ISBN.
- A `{message}` response body is modelled by the outcome its text reports,
  so "added" and "modified", or "book not found" and "no reviews", stay
  distinguishable.
- "Has a review" means the JavaScript truthiness of `reviews[username]`:
  the key is present and the text is non-empty. `BooksDb.HasReviewIsMembership`
  shows that, while every stored text is non-empty, this is the same as key
  membership. Both review handlers keep every stored text non-empty.

## Model

| member | source | states |
|---|---|---|
| `Seqs.Filter` | router/general.js:39 | the filter result is a subsequence of the input, every element satisfies the predicate, and every satisfying value occurs as often as in the input |
| `Seqs.FilterEmpty` | router/general.js:40-44 | the filter result is empty exactly when no element satisfies the predicate (the 404 condition of the author and title queries) |
| `Seqs.FilterUnique` | router/general.js:39 | any sequence meeting Filter's contract is the filter result, so "exactly the matches, in catalog order" determines the answer |
| `Seqs.SubsequenceMultiset` | router/general.js:51 | a subsequence never holds a value more often than the sequence it comes from |
| `Text.Lower` | router/general.js:51 | lower-casing keeps the length and lower-cases each character in place |
| `Text.LowerChar` | router/general.js:51 | an ASCII capital becomes the small letter 32 code points above it, every other character is unchanged, and the result is never a capital |
| `Text.LowerCharEqual` | router/general.js:51 | two characters lower-case alike iff they are equal or differ only in ASCII case |
| `Text.LowerEqual` | router/general.js:51 | two strings lower-case alike iff they have the same length and differ position by position only in ASCII case |
| `Text.Includes` | router/general.js:51 | the left-to-right scan: it succeeds when the query is a prefix, and never when the query is longer than the title; `IncludesIsSubstring` proves it equals `IsSubstring` |
| `Text.IncludesIsSubstring` | router/general.js:51 | the `includes` scan succeeds exactly when the query occurs at some index of the title |
| `BooksDb.Values` | router/general.js:39 | position i of the result is the record of the i-th key in enumeration order, so there is one record per key; its members are exactly the catalog's records |
| `BooksDb.SetBook` | router/auth_users.js:69-73 | replacing one book's record keeps the key order and the key set, and leaves every other book unchanged |
| `BooksDb.HasReviewIsMembership` | router/auth_users.js:67 | when every stored review text is non-empty, the truthiness test on `reviews[username]` is key membership |
| `AuthUsers.UsernamesAppend` | router/general.js:69 | pushing a user adds exactly its name to the set of registered names |
| `AuthUsers.IsValid` | router/auth_users.js:10-17 | true iff no registered user has the name, that is, iff the name is free |
| `AuthUsers.AuthenticatedUser` | router/auth_users.js:20-27 | true iff some registered user matches both username and password |
| `AuthUsers.Login` | router/auth_users.js:30-52 | a missing field gives 404 and an unchanged session; credentials that match no user give 208 and an unchanged session; matching credentials give 200 with the token, and the session records the token and that username |
| `AuthUsers.UpsertReview` | router/auth_users.js:55-79 | a missing review gives 400 and no change, even for an unknown ISBN; an unknown ISBN gives 404 and no change; otherwise the session user's entry is set, it reports Modified iff a truthy entry existed and Added otherwise, and every other reviewer and every other book is unchanged |
| `AuthUsers.DeleteReview` | router/auth_users.js:82-98 | an unknown ISBN gives 404; a user without a review gives 404; each leaves the catalog unchanged; otherwise only that user's key is removed and everything else is kept |
| `AuthUsers.ReviewHandlersKeepReviewsNonEmpty` | router/auth_users.js:60-62 | both review handlers preserve the invariant that every stored review text is non-empty |
| `AuthUsers.UpsertThenDeleteRestores` | router/auth_users.js:65-91 | for a user with no review on a book, an upsert (Added) followed by a delete (200) gives back the original catalog exactly |
| `AuthUsers.UpsertTwiceModifies` | router/auth_users.js:67-75 | a second upsert by the same user reports Modified and overwrites the text, and the user still has a single entry |
| `General.Register` | router/general.js:61-76 | a missing field gives 400 and no change; a name not yet registered gives 409 and no change; an already registered name is appended with 200; the set of registered names never changes |
| `General.RegisterOnEmptyRegistry` | router/general.js:66-72 | on the initial empty registry, registration never adds a user and answers 409 whenever both fields are present |
| `General.RegisterIntended` | router/general.js:67-72 | the corrected handler: a free name is appended with 200, a taken name gives 409, and unique usernames stay unique |
| `General.RegisterRejectsFreshName` | router/general.js:68-72 | on an empty registry, "bob"/"pw" gets 409 from the written handler and is registered by the corrected one |
| `General.RegisterIntendedTwice` | router/general.js:68-72 | with the corrected handler, registering a free name succeeds and registering it again conflicts without change |
| `General.BookByIsbn` | router/general.js:25-34 | the lookup succeeds iff the ISBN is a catalog key, and then returns exactly that record |
| `General.Query` | router/general.js:40-44 | the shared query rejects iff no book matches, and otherwise answers the non-empty exact matches in catalog order |
| `General.BooksByAuthor` | router/general.js:37-46 | NotFound iff no book's author equals the query; otherwise exactly the books with that author, in catalog order |
| `General.BooksByTitle` | router/general.js:49-58 | NotFound iff no lower-cased title contains the lower-cased query as a substring; otherwise exactly those books, in catalog order |
| `General.TitleQueryIgnoresCase` | router/general.js:51 | lower-casing the query does not change whether the title query succeeds or which books it answers |
| `General.GetReviews` | router/general.js:128-142 | NoSuchBook iff the ISBN is unknown; NoReviews iff the book's reviews map is empty; otherwise that book's non-empty reviews map |
| `General.DeletedReviewNotListed` | router/auth_users.js:89-91 | after a successful delete, listing the book's reviews no longer shows the user |
| `Server.GatePasses` | index.js:21-37 | the gate lets a request through iff a session record exists and its token verified |
| `Server.ServeRead` | router/general.js:79-142 | `GET /` answers 200 with the catalog; `/isbn` answers that book or 404 "not found"; `/author` and `/title` answer their query's matches or 404; `/review` answers 200 with a non-empty reviews map, or 404 reporting a missing book or no reviews |
| `Server.Step` | index.js:19-45 | a read is served by ServeRead and changes nothing; a review request without a session gets 403 "not logged in" and one whose token fails gets 403 "token invalid", with no change; a request that passes the gate reaches the upsert or delete handler under the session's username, and the catalog becomes the handler's; registration runs the build's handler and login the login handler on the current registry; only registration touches the registry, only a successful login touches the session, and only a successful review request behind the gate touches the catalog |
| `Server.LoginThenReviewActsAsUser` | index.js:25-28 | after a login answered 200, the session holds the token and the username, and a verified review request runs the upsert as that user |
| `Server.ListingReturnsCatalog` | router/general.js:79-90 | `GET /` answers 200 with the whole catalog and changes nothing |
| `Server.RunKeepsUsernames` | router/general.js:68-69 | as written, no sequence of requests changes the set of registered names |
| `Server.NoUsernamesMeansEmpty` | router/auth_users.js:7 | a registry has no usernames iff it is empty |
| `Server.RegistryStaysEmpty` | router/auth_users.js:7 | as written, the registry that starts empty is empty after any sequence of requests |
| `Server.AsWrittenServerIsFrozen` | router/general.js:68-72 | as written, every sequence of requests from the initial state leads back to the initial state |
| `Server.LoginAlwaysRejected` | router/auth_users.js:39-51 | as written, after any sequence of requests, a login with both fields present answers 208 |
| `Server.StepKeepsConsistent` | router/auth_users.js:39-48 | with the corrected registration, one request preserves unique usernames, the session user being registered, and non-empty review texts |
| `Server.InitConsistent` | router/auth_users.js:7 | the initial state, with no users and no session, is consistent when the seed's review texts are non-empty |
| `Server.RunKeepsConsistent` | router/general.js:67-70 | with the corrected registration, those invariants hold after any sequence of requests |
| `Server.EndToEndExample` | router/auth_users.js:55-79 | with the corrected registration: reviews of "1" give 404 "no reviews" at first, bob registers (200 "registered"), logs in (200 with the token) and adds "Great" (200 "added"), and reviews of "1" then give `{bob: "Great"}`; as written, the registration gets 409 "username taken" and the state is unchanged |

## Left out

- Express wiring: router mounting, `express.json` and `app.listen` in index.js. This is infrastructure.
- Signing and verifying tokens (`jsonwebtoken`) and token expiry. A login's token is an input. At the gate, the result of verifying the token is a boolean input of the request (`verified`). Time is not modelled.
- `express-session` cookies: the model holds a single abstract session record. Separate sessions of separate clients are not modelled.
- Asynchrony (`setTimeout`, promises, callbacks): each read is a synchronous result or error.
- JSON serialisation and the exact message texts: outcomes are datatypes with a status code. A response body is a tag plus the returned data.
- Unicode `toLowerCase`: only the ASCII letters A-Z are lower-cased.
- JavaScript truthiness of non-string request values, such as arrays from repeated query parameters: fields are `Option<string>`, and absent or empty means missing.
- The contents of `booksdb.js`: that file is not part of this model, and the catalog is an input. The enumeration order of its keys is also an input. This includes JavaScript's rule that integer-like keys come first.
- Keys inherited from the object prototype: the catalog and every reviews map hold only their own keys. In the code, `books["constructor"]` is truthy, and so is `reviews[username]` for a session user named "constructor" or "toString" who has no review. For such a user the code's upsert reports "modified" and its delete answers 200 while removing nothing, whereas the model answers Added and "no review found". Such a user can exist only with the corrected registration, since as written nobody can register.
- `General.ListBooks`: the 500 branch of `getBooksDataWithCallback` needs an absent catalog, which never occurs. The function therefore always succeeds and carries no contract of its own. `Server.ListingReturnsCatalog` states its behaviour.

## Findings

| source | as written | input that shows it | evidently intended | confidence | as-written member | corrected member |
|---|---|---|---|---|---|---|
| router/general.js:68 | `if (!isValid(username))` pushes the user only when the name is already registered, and answers 409 to a free name; with the initial empty registry nobody can ever register or log in | registering "bob"/"pw" on the empty registry answers 409 and leaves the registry empty | push when `isValid(username)` holds (the name is free), and answer 409 when it is taken, as the comment on line 68 ("isValid returns true if username already exists") assumes and the 409 text "Username already exists!" on line 72 shows | high; not executed | `General.Register` (with `General.RegisterRejectsFreshName`, `Server.AsWrittenServerIsFrozen`) | `General.RegisterIntended` (with `Server.RunKeepsConsistent`, `Server.EndToEndExample`) |

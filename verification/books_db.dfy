/** The shared book catalog: ISBN -> book record, each book holding a map
    from username to review text. The seed data itself is an input. */
module BooksDb {

  datatype Book = Book(title: string, author: string, reviews: map<string, string>)

  /** The catalog object: its keys in enumeration order, and the records. */
  datatype Store = Store(order: seq<string>, books: map<string, Book>)

  /** The key order lists every ISBN of the map exactly once. */
  ghost predicate WellFormed(s: Store)
  {
    && (forall i, j :: 0 <= i < j < |s.order| ==> s.order[i] != s.order[j])
    && (forall k :: k in s.books <==> k in s.order)
  }

  type Catalog = s: Store | WellFormed(s) witness Store([], map[])

  /** `Object.values(books)`: the records in key enumeration order. */
  function Values(c: Catalog): (r: seq<Book>)
    ensures |r| == |c.order|
    ensures forall i :: 0 <= i < |r| ==> r[i] == c.books[c.order[i]]
    ensures forall b :: b in r <==> exists k :: k in c.books && c.books[k] == b
  {
    var r := seq(|c.order|, i requires 0 <= i < |c.order| => c.books[c.order[i]]);
    assert forall k :: k in c.books ==> r[IndexOf(c.order, k)] == c.books[k];
    r
  }

  /** The position of a key in the order; used only in proofs. */
  ghost function IndexOf(order: seq<string>, k: string): (i: nat)
    requires k in order
    ensures i < |order| && order[i] == k
  {
    if order[0] == k then 0 else 1 + IndexOf(order[1..], k)
  }

  /** `reviews[username]` is truthy: an entry exists and its text is not empty. */
  predicate HasReview(b: Book, user: string)
  {
    user in b.reviews && b.reviews[user] != ""
  }

  /** Every stored review text is non-empty (the review handlers only ever
      store truthy texts). */
  ghost predicate ReviewsNonEmpty(c: Catalog)
  {
    forall k, u :: k in c.books && u in c.books[k].reviews ==> c.books[k].reviews[u] != ""
  }

  /** Under `ReviewsNonEmpty`, the truthiness test is plain key membership. */
  lemma HasReviewIsMembership(c: Catalog, isbn: string, user: string)
    requires ReviewsNonEmpty(c) && isbn in c.books
    ensures HasReview(c.books[isbn], user) <==> user in c.books[isbn].reviews
  {
  }

  /** Replaces the record of an existing ISBN; the key order is untouched. */
  function SetBook(c: Catalog, isbn: string, b: Book): (r: Catalog)
    requires isbn in c.books
    ensures r.order == c.order && r.books.Keys == c.books.Keys
    ensures r.books[isbn] == b
    ensures forall k :: k in c.books && k != isbn ==> r.books[k] == c.books[k]
  {
    c.(books := c.books[isbn := b])
  }
}

/**
  The record store behind the repositories: one map per table keyed by the
  generated primary key, plus the next key each identity column hands out.
  Book rows keep a nullable foreign key to their publisher; book_details rows
  keep the unique foreign key to their book, and the book row names its
  detail (the inverse side) so that either side can be followed.
*/
module Store {
  import opened Common
  import opened Errors

  /** A books row: title, author and isbn are NOT NULL columns, isbn is UNIQUE. */
  datatype BookRow = BookRow(
    title: string,
    author: string,
    isbn: string,
    price: Option<int>,
    publishDate: Option<Date>,
    publisher: Option<nat>,
    detail: Option<nat>)

  /** A book_details row; `book` is the UNIQUE join column book_id. */
  datatype DetailRow = DetailRow(
    description: Option<string>,
    language: Option<string>,
    pageCount: Option<int>,
    publisher: Option<string>,
    coverImageUrl: Option<string>,
    edition: Option<string>,
    book: nat)

  /** A publishers row: name is NOT NULL and UNIQUE. */
  datatype PublisherRow = PublisherRow(
    name: string,
    establishedDate: Option<Date>,
    address: Option<string>)

  datatype Db = Db(
    books: map<nat, BookRow>,
    details: map<nat, DetailRow>,
    publishers: map<nat, PublisherRow>,
    nextBookId: nat,
    nextDetailId: nat,
    nextPublisherId: nat)

  /** What a transaction returns and the store it leaves behind. */
  datatype Tx<+T> = Tx(result: Result<T>, db: Db)

  /** The empty store; identity columns start at 1. */
  const Empty := Db(map[], map[], map[], 1, 1, 1)

  /** Every key was handed out by its identity column. */
  ghost predicate KeysIssued(db: Db) {
    && 1 <= db.nextBookId && 1 <= db.nextDetailId && 1 <= db.nextPublisherId
    && (forall k :: k in db.books ==> 1 <= k < db.nextBookId)
    && (forall k :: k in db.details ==> 1 <= k < db.nextDetailId)
    && (forall k :: k in db.publishers ==> 1 <= k < db.nextPublisherId)
  }

  /** The UNIQUE constraint on books.isbn. */
  ghost predicate IsbnUnique(books: map<nat, BookRow>) {
    forall j, k :: j in books && k in books && j != k ==> books[j].isbn != books[k].isbn
  }

  /** The UNIQUE constraint on publishers.name. */
  ghost predicate NameUnique(publishers: map<nat, PublisherRow>) {
    forall j, k :: j in publishers && k in publishers && j != k ==> publishers[j].name != publishers[k].name
  }

  /** The foreign key books.publisher_id: every referenced publisher exists. */
  ghost predicate PublishersExist(db: Db) {
    forall k :: k in db.books && db.books[k].publisher.Some? ==> db.books[k].publisher.value in db.publishers
  }

  /** Book and detail point at each other: the inverse side agrees with the join column. */
  ghost predicate Linked(books: map<nat, BookRow>, details: map<nat, DetailRow>) {
    && (forall k :: k in books && books[k].detail.Some? ==>
          books[k].detail.value in details && details[books[k].detail.value].book == k)
    && (forall d :: d in details ==>
          details[d].book in books && books[details[d].book].detail == Some(d))
  }

  ghost predicate DetailsLinked(db: Db) {
    Linked(db.books, db.details)
  }

  /** The store invariant every committed transaction keeps. */
  ghost predicate Consistent(db: Db) {
    && KeysIssued(db)
    && IsbnUnique(db.books)
    && NameUnique(db.publishers)
    && PublishersExist(db)
    && DetailsLinked(db)
  }

  lemma EmptyIsConsistent()
    ensures Consistent(Empty)
  {
  }

  /** The UNIQUE join column: no two details belong to the same book. */
  lemma OneDetailPerBook(db: Db, d1: nat, d2: nat)
    requires Consistent(db)
    requires d1 in db.details && d2 in db.details && db.details[d1].book == db.details[d2].book
    ensures d1 == d2
  {
  }

  /** The detail key a book row owns, as a set (empty when it has none). */
  function DetailKeys(b: BookRow): set<nat> {
    if b.detail.Some? then {b.detail.value} else {}
  }

  /** Rewriting a book's columns without touching its detail link keeps the links. */
  lemma LinkedAfterRewrite(books: map<nat, BookRow>, details: map<nat, DetailRow>, id: nat, row: BookRow)
    requires Linked(books, details) && id in books && row.detail == books[id].detail
    ensures Linked(books[id := row], details)
  {
    var written := books[id := row];
    forall k | k in written && written[k].detail.Some?
      ensures written[k].detail.value in details && details[written[k].detail.value].book == k
    {
      assert written[k].detail == books[k].detail;
    }
  }

  /** Rewriting a detail's columns without touching its book keeps the links. */
  lemma LinkedAfterDetailRewrite(books: map<nat, BookRow>, details: map<nat, DetailRow>, d: nat, row: DetailRow)
    requires Linked(books, details) && d in details && row.book == details[d].book
    ensures Linked(books, details[d := row])
  {
    var written := details[d := row];
    forall e | e in written
      ensures written[e].book in books && books[written[e].book].detail == Some(e)
    {
      assert written[e].book == details[e].book;
    }
  }

  /**
    Giving a book that has no detail (or a new book) a fresh detail that
    points back at it keeps the links.
  */
  lemma LinkedAfterAttach(books: map<nat, BookRow>, details: map<nat, DetailRow>,
                          id: nat, row: BookRow, d: nat, detail: DetailRow)
    requires Linked(books, details)
    requires id in books ==> books[id].detail.None?
    requires d !in details && row.detail == Some(d) && detail.book == id
    ensures Linked(books[id := row], details[d := detail])
  {
    var bs, ds := books[id := row], details[d := detail];
    forall k | k in bs && bs[k].detail.Some?
      ensures bs[k].detail.value in ds && ds[bs[k].detail.value].book == k
    {
      if k != id {
        assert bs[k] == books[k];
        assert books[k].detail.value != d;
      }
    }
    forall e | e in ds
      ensures ds[e].book in bs && bs[ds[e].book].detail == Some(e)
    {
      if e != d {
        assert ds[e] == details[e];
        assert details[e].book != id;
      }
    }
  }

  /** Storing a new book without a detail keeps the links. */
  lemma LinkedAfterPlainInsert(books: map<nat, BookRow>, details: map<nat, DetailRow>, id: nat, row: BookRow)
    requires Linked(books, details) && id !in books && row.detail.None?
    ensures Linked(books[id := row], details)
  {
    var written := books[id := row];
    forall e | e in details
      ensures details[e].book in written && written[details[e].book].detail == Some(e)
    {
      assert details[e].book != id;
    }
  }

  /** Deleting a book together with its detail (the cascade) keeps the links. */
  lemma LinkedAfterRemove(books: map<nat, BookRow>, details: map<nat, DetailRow>, id: nat)
    requires Linked(books, details) && id in books
    ensures Linked(books - {id}, details - DetailKeys(books[id]))
  {
    var bs, ds := books - {id}, details - DetailKeys(books[id]);
    forall e | e in ds
      ensures ds[e].book in bs && bs[ds[e].book].detail == Some(e)
    {
      assert details[e].book != id;
    }
  }

  /** All book keys in primary-key order (findAll). */
  function BookIds(db: Db): (r: seq<nat>)
    requires KeysIssued(db)
    ensures Increasing(r)
    ensures forall k :: k in r <==> k in db.books
  {
    KeysBelow(db.books, db.nextBookId)
  }

  /** All publisher keys in primary-key order (findAll). */
  function PublisherIds(db: Db): (r: seq<nat>)
    requires KeysIssued(db)
    ensures Increasing(r)
    ensures forall k :: k in r <==> k in db.publishers
  {
    KeysBelow(db.publishers, db.nextPublisherId)
  }

  /** The books whose publisher is `pid` (the rows findByPublisherId returns). */
  function BooksOf(books: map<nat, BookRow>, pid: nat): set<nat> {
    set k | k in books && books[k].publisher == Some(pid)
  }

  /** countByPublisherId: the live number of books that reference `pid`. */
  function PublisherBookCount(books: map<nat, BookRow>, pid: nat): nat {
    |BooksOf(books, pid)|
  }

  /** Inserting a row under a fresh key adds one to its publisher's count and nothing to the others. */
  lemma {:induction false} CountAfterInsert(books: map<nat, BookRow>, id: nat, row: BookRow, pid: nat)
    requires id !in books
    ensures PublisherBookCount(books[id := row], pid)
         == PublisherBookCount(books, pid) + (if row.publisher == Some(pid) then 1 else 0)
  {
    if row.publisher == Some(pid) {
      assert BooksOf(books[id := row], pid) == BooksOf(books, pid) + {id};
    } else {
      assert BooksOf(books[id := row], pid) == BooksOf(books, pid);
    }
  }

  /** Removing a row takes one off its publisher's count and nothing off the others. */
  lemma {:induction false} CountAfterRemove(books: map<nat, BookRow>, id: nat, pid: nat)
    requires id in books
    ensures PublisherBookCount(books - {id}, pid)
         == PublisherBookCount(books, pid) - (if books[id].publisher == Some(pid) then 1 else 0)
  {
    if books[id].publisher == Some(pid) {
      assert BooksOf(books, pid) == BooksOf(books - {id}, pid) + {id};
    } else {
      assert BooksOf(books - {id}, pid) == BooksOf(books, pid);
    }
  }

  /** Rewriting a row moves it from its old publisher's count to its new one's. */
  lemma {:induction false} CountAfterReplace(books: map<nat, BookRow>, id: nat, row: BookRow, pid: nat)
    requires id in books
    ensures PublisherBookCount(books[id := row], pid)
         == PublisherBookCount(books, pid)
            - (if books[id].publisher == Some(pid) then 1 else 0)
            + (if row.publisher == Some(pid) then 1 else 0)
  {
    CountAfterRemove(books, id, pid);
    CountAfterInsert(books - {id}, id, row, pid);
    assert (books - {id})[id := row] == books[id := row];
  }

  /** findByIsbn: the key of the book with this isbn, if any. */
  function FindBookByIsbn(db: Db, isbn: string): (r: Option<nat>)
    requires KeysIssued(db)
    ensures r.Some? ==> r.value in db.books && db.books[r.value].isbn == isbn
    ensures r.None? ==> forall k :: k in db.books ==> db.books[k].isbn != isbn
  {
    FirstWhere(BookIds(db), db.books, (b: BookRow) => b.isbn == isbn)
  }

  /** findByName: the key of the publisher with this name, if any. */
  function FindPublisherByName(db: Db, name: string): (r: Option<nat>)
    requires KeysIssued(db)
    ensures r.Some? ==> r.value in db.publishers && db.publishers[r.value].name == name
    ensures r.None? ==> forall k :: k in db.publishers ==> db.publishers[k].name != name
  {
    FirstWhere(PublisherIds(db), db.publishers, (p: PublisherRow) => p.name == name)
  }

  /** With isbn unique, the lookup finds exactly the book that holds the isbn. */
  lemma IsbnLookupExact(db: Db, isbn: string, k: nat)
    requires Consistent(db)
    ensures FindBookByIsbn(db, isbn) == Some(k) <==> k in db.books && db.books[k].isbn == isbn
  {
  }

  /** With names unique, the lookup finds exactly the publisher that holds the name. */
  lemma NameLookupExact(db: Db, name: string, k: nat)
    requires Consistent(db)
    ensures FindPublisherByName(db, name) == Some(k) <==> k in db.publishers && db.publishers[k].name == name
  {
  }

  /**
    The repositories' common state. Each service write reads and assigns
    these fields; a write that fails assigns none of them, which is how the
    transaction's rollback is modelled.
  */
  class Catalog {
    var books: map<nat, BookRow>
    var details: map<nat, DetailRow>
    var publishers: map<nat, PublisherRow>
    var nextBookId: nat
    var nextDetailId: nat
    var nextPublisherId: nat

    constructor ()
      ensures View() == Empty && Valid()
    {
      books, details, publishers := map[], map[], map[];
      nextBookId, nextDetailId, nextPublisherId := 1, 1, 1;
    }

    /** The whole store as a value. */
    function View(): Db
      reads this
    {
      Db(books, details, publishers, nextBookId, nextDetailId, nextPublisherId)
    }

    ghost predicate Valid()
      reads this
    {
      Consistent(View())
    }
  }
}

/**
  End-to-end runs of the catalog, written as chains of the transaction
  functions from the empty store, one lemma per step, each naming the store
  the step leaves behind.
*/
module Scenario {
  import opened Common
  import opened Errors
  import opened Store
  import opened Dto
  import opened BookService
  import opened PublisherService

  const Acme := PublisherRequest(Some("Acme"), None, None)

  /** A book payload for publisher 1 with the given isbn, without a detail. */
  function BookNamed(isbn: string): BookRequest {
    BookRequest(Some("X"), Some("Y"), Some(isbn), None, None, Some(1), None)
  }

  function RowNamed(isbn: string): BookRow {
    BookRow("X", "Y", isbn, None, None, Some(1), None)
  }

  /** Publisher "Acme" under key 1. */
  const WithAcme := Db(map[], map[], map[1 := PublisherRow("Acme", None, None)], 1, 1, 2)
  /** ... and book "111" under key 1. */
  const WithOneBook := WithAcme.(books := map[1 := RowNamed("111")], nextBookId := 2)
  /** ... and book "222" under key 2. */
  const WithTwoBooks := WithOneBook.(books := WithOneBook.books[2 := RowNamed("222")], nextBookId := 3)
  /** Both books deleted again. */
  const BooksGone := WithTwoBooks.(books := map[])

  lemma {:induction false} AcmeGetsKeyOne()
    ensures CreatePublisherTx(Empty, Acme) == Tx(Ok(PublisherResponse(1, "Acme", None, None)), WithAcme)
    ensures Consistent(WithAcme)
  {
    EmptyIsConsistent();
    CreatePublisherAddsOne(Empty, Acme);
    CreatePublisherKeepsConsistent(Empty, Acme);
  }

  lemma {:induction false} FirstBookCountsOne()
    ensures var tx := CreateBookTx(WithAcme, BookNamed("111"));
            && tx.db == WithOneBook
            && tx.result.Ok? && tx.result.value.id == 1
            && tx.result.value.publisher == Some(PublisherSummary(1, "Acme", 1))
    ensures Consistent(WithOneBook)
  {
    AcmeGetsKeyOne();
    assert BooksOf(WithAcme.books, 1) == {};
    CreateBookCommitsInsert(WithAcme, BookNamed("111"));
    assert InsertBook(WithAcme, BookNamed("111")) == WithOneBook;
    CreateBookCountsNewBook(WithAcme, BookNamed("111"));
    CreateBookKeepsConsistent(WithAcme, BookNamed("111"));
  }

  lemma {:induction false} SecondBookCountsTwo()
    ensures var tx := CreateBookTx(WithOneBook, BookNamed("222"));
            && tx.db == WithTwoBooks
            && tx.result.Ok? && tx.result.value.id == 2
            && tx.result.value.publisher == Some(PublisherSummary(1, "Acme", 2))
    ensures Consistent(WithTwoBooks)
    ensures PublisherBookCount(WithTwoBooks.books, 1) == 2
  {
    FirstBookCountsOne();
    assert BooksOf(WithOneBook.books, 1) == {1};
    assert !IsbnTaken(WithOneBook, "222");
    CreateBookCommitsInsert(WithOneBook, BookNamed("222"));
    assert InsertBook(WithOneBook, BookNamed("222")) == WithTwoBooks;
    CreateBookCountsNewBook(WithOneBook, BookNamed("222"));
    CreateBookKeepsConsistent(WithOneBook, BookNamed("222"));
  }

  /** Both of Acme's books are listed with the count 2. */
  lemma {:induction false} BothBooksShowCountTwo()
    ensures Consistent(WithTwoBooks)
    ensures var r := GetBooksByPublisherId(WithTwoBooks, 1);
            && r.Ok? && |r.value| == 2
            && forall i :: 0 <= i < 2 ==> r.value[i].publisher == Some(PublisherSummary(1, "Acme", 2))
  {
    SecondBookCountsTwo();
  }

  /** Deleting Acme while its two books exist is refused with count 2. */
  lemma {:induction false} DeleteRefusedWithTwoBooks()
    ensures DeletePublisherTx(WithTwoBooks, 1) == Tx(Err(HasBooks(1, 2)), WithTwoBooks)
  {
    SecondBookCountsTwo();
    DeletePublisherRefusesWhileBooks(WithTwoBooks, 1, 1);
  }

  /** After both books are deleted, deleting Acme succeeds and leaves no publisher. */
  lemma {:induction false} DeleteAllowedOnceBooksGone()
    ensures DeleteBookTx(DeleteBookTx(WithTwoBooks, 1).db, 2).db == BooksGone
    ensures DeletePublisherTx(BooksGone, 1) == Tx(Ok(()), BooksGone.(publishers := map[]))
  {
    var once := DeleteBookTx(WithTwoBooks, 1).db;
    assert once.books == map[2 := RowNamed("222")];
    assert DeleteBookTx(once, 2).db.books == map[];
    assert BooksOf(BooksGone.books, 1) == {};
  }

  /** A second create with isbn "111" fails with Duplicate and the store keeps one book. */
  lemma {:induction false} DuplicateIsbnRefused()
    ensures CreateBookTx(WithOneBook, BookNamed("111")) == Tx(Err(Duplicate("Book", "isbn", TextValue("111"))), WithOneBook)
    ensures |WithOneBook.books| == 1
  {
    FirstBookCountsOne();
    CreateBookRejectsTakenIsbn(WithOneBook, BookNamed("111"));
  }

  /** Looking up an isbn no book holds fails with NotFound. */
  lemma {:induction false} UnknownIsbnNotFound()
    ensures Consistent(WithOneBook)
    ensures GetBookByIsbn(WithOneBook, "does-not-exist") == Err(NotFound("Book", "isbn", TextValue("does-not-exist")))
  {
    FirstBookCountsOne();
    assert !IsbnTaken(WithOneBook, "does-not-exist");
  }
}

/**
  The JPA entities as heap objects, with the helpers that keep their two
  relationships consistent in memory:
  - Book <-> BookDetail, one-to-one, kept in step by the mutually recursive
    setters Book.SetBookDetail and BookDetail.SetBook;
  - Publisher -> Books, the reverse list edited by Publisher.AddBook and
    Publisher.RemoveBook, which also set or clear the book's publisher.
  Store identifiers, persistence and cascades are modelled in module Store.
*/
module Entities {
  import opened Common

  class Book {
    var title: string
    var author: string
    var isbn: string
    var price: Option<int>
    var publishDate: Option<Date>
    /** The owning side of the many-to-one link to a publisher. */
    var publisher: Publisher?
    /** The inverse side of the one-to-one link; BookDetail.book holds the key. */
    var bookDetail: BookDetail?

    constructor (title: string, author: string, isbn: string, price: Option<int>, publishDate: Option<Date>)
      ensures this.title == title && this.author == author && this.isbn == isbn
      ensures this.price == price && this.publishDate == publishDate
      ensures publisher == null && bookDetail == null
    {
      this.title, this.author, this.isbn := title, author, isbn;
      this.price, this.publishDate := price, publishDate;
      publisher, bookDetail := null, null;
    }

    /**
      Attaches `detail` (or detaches, when it is null) and, unless the detail
      already points back here, asks the detail to point back. The returned
      ghost value counts the nested setter calls: the guard on each side stops
      the recursion after at most one.
    */
    method SetBookDetail(detail: BookDetail?) returns (ghost nested: nat)
      modifies this`bookDetail, (if detail == null then {} else {detail})`book
      decreases if detail != null && detail.book != this then 1 else 0
      ensures bookDetail == detail
      ensures detail != null ==> detail.book == this
      ensures nested <= 1
      ensures nested == 1 <==> detail != null && old(detail.book) != this
      // a previously attached detail keeps its back-reference
      ensures old(bookDetail) != null && old(bookDetail) != detail ==>
                old(bookDetail).book == old(bookDetail.book)
    {
      bookDetail := detail;
      nested := 0;
      if detail != null && detail.book != this {
        var inner := detail.SetBook(this);
        nested := 1 + inner;
      }
    }
  }

  class BookDetail {
    var description: Option<string>
    var language: Option<string>
    var pageCount: Option<int>
    /** Free-text publisher label, distinct from the Publisher entity. */
    var publisher: Option<string>
    var coverImageUrl: Option<string>
    var edition: Option<string>
    /** The owning side (unique foreign key book_id) of the one-to-one link. */
    var book: Book?

    constructor (description: Option<string>, language: Option<string>, pageCount: Option<int>,
                 publisher: Option<string>, coverImageUrl: Option<string>, edition: Option<string>)
      ensures this.description == description && this.language == language
      ensures this.pageCount == pageCount && this.publisher == publisher
      ensures this.coverImageUrl == coverImageUrl && this.edition == edition
      ensures book == null
    {
      this.description, this.language, this.pageCount := description, language, pageCount;
      this.publisher, this.coverImageUrl, this.edition := publisher, coverImageUrl, edition;
      book := null;
    }

    /**
      Points this detail at `book` (or clears the back-reference, when it is
      null) and, unless the book already holds this detail, asks the book to
      hold it. The book this detail pointed at before is not told.
    */
    method SetBook(book: Book?) returns (ghost nested: nat)
      modifies this`book, (if book == null then {} else {book})`bookDetail
      decreases if book != null && book.bookDetail != this then 1 else 0
      ensures this.book == book
      ensures book != null ==> book.bookDetail == this
      ensures nested <= 1
      ensures nested == 1 <==> book != null && old(book.bookDetail) != this
      // re-pointing leaves the old book's detail field as it was
      ensures old(this.book) != null && old(this.book) != book ==>
                old(this.book).bookDetail == old(this.book.bookDetail)
    {
      this.book := book;
      nested := 0;
      if book != null && book.bookDetail != this {
        var inner := book.SetBookDetail(this);
        nested := 1 + inner;
      }
    }
  }

  class Publisher {
    var name: string
    var establishedDate: Option<Date>
    var address: Option<string>
    /** The reverse (non-owning) list of this publisher's books. */
    var books: seq<Book>

    constructor (name: string, establishedDate: Option<Date>, address: Option<string>)
      ensures this.name == name && this.establishedDate == establishedDate
      ensures this.address == address && books == []
    {
      this.name, this.establishedDate, this.address := name, establishedDate, address;
      books := [];
    }

    /** Appends `book` to the list and makes this its publisher; null is ignored. */
    method AddBook(book: Book?)
      modifies this`books, (if book == null then {} else {book})`publisher
      ensures book == null ==> books == old(books)
      ensures book != null ==> books == old(books) + [book] && |books| == |old(books)| + 1
      ensures book != null ==> book.publisher == this
      // the book stays in its previous publisher's list
      ensures book != null && old(book.publisher) != null && old(book.publisher) != this ==>
                old(book.publisher).books == old(book.publisher.books)
    {
      if book == null {
        return;
      }
      books := books + [book];
      book.publisher := this;
    }

    /**
      Removes the first occurrence of `book` from the list and clears the
      book's publisher only if it is this one; null is ignored.
    */
    method RemoveBook(book: Book?)
      modifies this`books, (if book == null then {} else {book})`publisher
      ensures book == null ==> books == old(books)
      ensures book != null ==> books == RemoveFirst<Book>(old(books), book)
      ensures book != null && old(book.publisher) == this ==> book.publisher == null
      ensures book != null && old(book.publisher) != this ==> book.publisher == old(book.publisher)
    {
      if book == null {
        return;
      }
      var b: Book := book;
      books := RemoveFirst(books, b);
      if book.publisher == this {
        book.publisher := null;
      }
    }
  }

  /** java.util.List.remove(Object): drops the first element equal to x, if any. */
  function RemoveFirst<T(==)>(s: seq<T>, x: T): seq<T>
  {
    if s == [] then []
    else if s[0] == x then s[1..]
    else [s[0]] + RemoveFirst(s[1..], x)
  }

  /** Position of the first occurrence of x in s. */
  function IndexOf<T(==)>(s: seq<T>, x: T): (i: nat)
    requires x in s
    ensures i < |s| && s[i] == x
    ensures forall j :: 0 <= j < i ==> s[j] != x
  {
    if s[0] == x then 0 else 1 + IndexOf(s[1..], x)
  }

  /** Removing x cuts exactly its first occurrence out and keeps the rest in order. */
  lemma {:induction false} RemoveFirstCutsFirstOccurrence<T>(s: seq<T>, x: T)
    requires x in s
    ensures RemoveFirst(s, x) == s[..IndexOf(s, x)] + s[IndexOf(s, x) + 1..]
  {
    if s[0] != x {
      RemoveFirstCutsFirstOccurrence(s[1..], x);
      assert s[1..][..IndexOf(s[1..], x)] == s[1..IndexOf(s, x)];
    }
  }

  /** Removing an absent element leaves the list as it was. */
  lemma {:induction false} RemoveFirstAbsent<T>(s: seq<T>, x: T)
    requires x !in s
    ensures RemoveFirst(s, x) == s
  {
    if s != [] {
      RemoveFirstAbsent(s[1..], x);
    }
  }

  /** Removal takes exactly one copy of x out of the list's contents, or none if absent. */
  lemma {:induction false} RemoveFirstMultiset<T>(s: seq<T>, x: T)
    ensures multiset(RemoveFirst(s, x)) == multiset(s) - multiset{x}
  {
    if s != [] {
      assert s == [s[0]] + s[1..];
      if s[0] != x {
        RemoveFirstMultiset(s[1..], x);
        assert RemoveFirst(s, x) == [s[0]] + RemoveFirst(s[1..], x);
      }
    }
  }

  /** AddBook then RemoveBook of a book not yet in the list restores the list. */
  lemma {:induction false} RemoveFirstAfterAppend<T>(s: seq<T>, x: T)
    requires x !in s
    ensures RemoveFirst(s + [x], x) == s
  {
    if s != [] {
      assert (s + [x])[1..] == s[1..] + [x];
      RemoveFirstAfterAppend(s[1..], x);
    } else {
      assert [x][1..] == [];
    }
  }
}

/**
  The book operations: reads are functions over the store value, each book
  projected with its publisher's live book count; writes are methods on the
  Catalog that check ISBN uniqueness and the referenced publisher, merge
  partial updates field by field, and leave the store untouched on failure.
*/
module BookService {
  import opened Common
  import opened Errors
  import opened Store
  import opened Dto

  // ===== projections =====

  /**
    toResponseWithPublisherCount: the book with, when it has a publisher, that
    publisher's id, name and current number of books.
  */
  function ToResponseWithPublisherCount(db: Db, id: nat): (r: BookResponse)
    requires id in db.books
    ensures r.id == id && r.isbn == db.books[id].isbn
    ensures r.publisher.Some? <==> db.books[id].publisher.Some? && db.books[id].publisher.value in db.publishers
    ensures r.publisher.Some? ==>
              var pid := db.books[id].publisher.value;
              && r.publisher.value.id == pid
              && r.publisher.value.name == db.publishers[pid].name
              && r.publisher.value.bookCount == PublisherBookCount(db.books, pid)
              && r.publisher.value.bookCount >= 1
  {
    var resp := BookFields(db, id);
    match db.books[id].publisher
    case None => resp
    case Some(pid) =>
      if pid in db.publishers then
        assert id in BooksOf(db.books, pid);
        resp.(publisher := Some(PublisherSummary(pid, db.publishers[pid].name, PublisherBookCount(db.books, pid))))
      else resp
  }

  /** In a consistent store every book with a publisher is shown with that publisher. */
  lemma ResponseShowsPublisher(db: Db, id: nat)
    requires Consistent(db) && id in db.books
    ensures ToResponseWithPublisherCount(db, id).publisher.Some? <==> db.books[id].publisher.Some?
  {
  }

  /** The projections of the given books, in the given order. */
  function Responses(db: Db, ids: seq<nat>): (r: seq<BookResponse>)
    requires Consistent(db) && forall k :: k in ids ==> k in db.books
    ensures BookIdsOf(r) == ids
    ensures forall i :: 0 <= i < |r| ==> r[i] == ToResponseWithPublisherCount(db, ids[i])
  {
    var r := seq(|ids|, i requires 0 <= i < |ids| => ToResponseWithPublisherCount(db, ids[i]));
    assert BookIdsOf(r) == ids;
    r
  }

  // ===== reads =====

  /** getAllBooks: one response per stored book, in primary-key order. */
  function GetAllBooks(db: Db): (r: seq<BookResponse>)
    requires Consistent(db)
    ensures |r| == |db.books|
    ensures forall k :: k in BookIdsOf(r) <==> k in db.books
    ensures Increasing(BookIdsOf(r))
    ensures forall i :: 0 <= i < |r| ==> r[i].id in db.books && r[i] == ToResponseWithPublisherCount(db, r[i].id)
  {
    var ids := BookIds(db);
    IncreasingCardinality(ids);
    assert Elems(ids) == db.books.Keys;
    Responses(db, ids)
  }

  /** getBookById: the book with this key, or NotFound("Book", "id", id). */
  function GetBookById(db: Db, id: nat): (r: Result<BookResponse>)
    requires Consistent(db)
    ensures r.Ok? <==> id in db.books
    ensures r.Ok? ==> r.value == ToResponseWithPublisherCount(db, id)
    ensures r.Err? ==> r.error == NotFound("Book", "id", IdValue(id))
  {
    if id in db.books then Ok(ToResponseWithPublisherCount(db, id))
    else Err(NotFound("Book", "id", IdValue(id)))
  }

  /** getBookByIsbn: the book holding this isbn, or NotFound("Book", "isbn", isbn). */
  function GetBookByIsbn(db: Db, isbn: string): (r: Result<BookResponse>)
    requires Consistent(db)
    ensures r.Ok? <==> exists k :: k in db.books && db.books[k].isbn == isbn
    ensures r.Ok? ==> (r.value.id in db.books && r.value.isbn == isbn
                       && r.value == ToResponseWithPublisherCount(db, r.value.id))
    ensures r.Err? ==> r.error == NotFound("Book", "isbn", TextValue(isbn))
  {
    match FindBookByIsbn(db, isbn)
    case Some(k) => Ok(ToResponseWithPublisherCount(db, k))
    case None => Err(NotFound("Book", "isbn", TextValue(isbn)))
  }

  /** The author contains q, ignoring case. */
  predicate AuthorMatches(q: string, b: BookRow) {
    ContainsIgnoreCase(b.author, q)
  }

  /** The title contains q, ignoring case. */
  predicate TitleMatches(q: string, b: BookRow) {
    ContainsIgnoreCase(b.title, q)
  }

  /** getBooksByAuthor: exactly the books whose author contains q (ignoring case), in key order. */
  function GetBooksByAuthor(db: Db, q: string): (r: seq<BookResponse>)
    requires Consistent(db)
    ensures forall k :: k in BookIdsOf(r) <==> k in db.books && AuthorMatches(q, db.books[k])
    ensures Increasing(BookIdsOf(r))
    ensures forall i :: 0 <= i < |r| ==> r[i].id in db.books && r[i] == ToResponseWithPublisherCount(db, r[i].id)
  {
    Responses(db, Select(BookIds(db), db.books, (b: BookRow) => AuthorMatches(q, b)))
  }

  /** getBooksByTitle: exactly the books whose title contains q (ignoring case), in key order. */
  function GetBooksByTitle(db: Db, q: string): (r: seq<BookResponse>)
    requires Consistent(db)
    ensures forall k :: k in BookIdsOf(r) <==> k in db.books && TitleMatches(q, db.books[k])
    ensures Increasing(BookIdsOf(r))
    ensures forall i :: 0 <= i < |r| ==> r[i].id in db.books && r[i] == ToResponseWithPublisherCount(db, r[i].id)
  {
    Responses(db, Select(BookIds(db), db.books, (b: BookRow) => TitleMatches(q, b)))
  }

  /**
    getBooksByPublisherId: NotFound when the publisher is absent; otherwise
    exactly its books, in key order, each carrying the one count computed for
    the call, which equals the number of books returned.
  */
  function GetBooksByPublisherId(db: Db, pid: nat): (r: Result<seq<BookResponse>>)
    requires Consistent(db)
    ensures r.Ok? <==> pid in db.publishers
    ensures r.Err? ==> r.error == NotFound("Publisher", "id", IdValue(pid))
    ensures r.Ok? ==> |r.value| == PublisherBookCount(db.books, pid)
    ensures r.Ok? ==> forall k :: k in BookIdsOf(r.value) <==> k in BooksOf(db.books, pid)
    ensures r.Ok? ==> Increasing(BookIdsOf(r.value))
    ensures r.Ok? ==> forall i :: 0 <= i < |r.value| ==>
              && r.value[i].id in db.books
              && r.value[i].publisher == Some(PublisherSummary(pid, db.publishers[pid].name, |r.value|))
              && r.value[i] == ToResponseWithPublisherCount(db, r.value[i].id)
  {
    if pid !in db.publishers then Err(NotFound("Publisher", "id", IdValue(pid)))
    else
      var ids := Select(BookIds(db), db.books, (b: BookRow) => b.publisher == Some(pid));
      IncreasingCardinality(ids);
      assert Elems(ids) == BooksOf(db.books, pid);
      Ok(WithSummary(db, ids, pid))
  }

  /**
    The given books of publisher `pid`, each projected with the one summary
    computed for the call; that is what toResponseWithPublisherCount would
    have shown for each of them.
  */
  function WithSummary(db: Db, ids: seq<nat>, pid: nat): (r: seq<BookResponse>)
    requires pid in db.publishers
    requires forall k :: k in ids ==> k in db.books && db.books[k].publisher == Some(pid)
    ensures BookIdsOf(r) == ids
    ensures forall i :: 0 <= i < |r| ==>
              && r[i].publisher == Some(PublisherSummary(pid, db.publishers[pid].name, PublisherBookCount(db.books, pid)))
              && r[i] == ToResponseWithPublisherCount(db, ids[i])
  {
    var summary := PublisherSummary(pid, db.publishers[pid].name, PublisherBookCount(db.books, pid));
    var r := seq(|ids|, i requires 0 <= i < |ids| => BookFields(db, ids[i]).(publisher := Some(summary)));
    assert BookIdsOf(r) == ids;
    r
  }

  // ===== what a write stores =====

  /** A new book_details row built from the payload, every field as given (nulls included). */
  function NewDetail(dr: DetailRequest, book: nat): DetailRow {
    DetailRow(dr.description, dr.language, dr.pageCount, dr.publisher, dr.coverImageUrl, dr.edition, book)
  }

  /** Partial update of a detail: a present sub-field overwrites, an absent one is kept. */
  function MergeDetail(d: DetailRow, dr: DetailRequest): DetailRow {
    d.(description := if dr.description.Some? then dr.description else d.description,
       language := if dr.language.Some? then dr.language else d.language,
       pageCount := if dr.pageCount.Some? then dr.pageCount else d.pageCount,
       publisher := if dr.publisher.Some? then dr.publisher else d.publisher,
       coverImageUrl := if dr.coverImageUrl.Some? then dr.coverImageUrl else d.coverImageUrl,
       edition := if dr.edition.Some? then dr.edition else d.edition)
  }

  /** Partial update of a book's own columns: a present field overwrites, an absent one is kept. */
  function MergeBook(b: BookRow, req: BookRequest): BookRow {
    b.(isbn := req.isbn.GetOr(b.isbn),
       publisher := if req.publisherId.Some? then req.publisherId else b.publisher,
       title := req.title.GetOr(b.title),
       author := req.author.GetOr(b.author),
       price := if req.price.Some? then req.price else b.price,
       publishDate := if req.publishDate.Some? then req.publishDate else b.publishDate)
  }

  /** A payload carrying only a price. */
  function PriceOnly(price: int): BookRequest {
    BookRequest(None, None, None, Some(price), None, None, None)
  }

  /** A payload carrying nothing. */
  const NoChanges := BookRequest(None, None, None, None, None, None, None)

  /** A price-only update changes the price and nothing else: not the title, author, isbn, publisher, date or detail. */
  lemma PriceOnlyChangesOnlyPrice(b: BookRow, price: int)
    ensures MergeBook(b, PriceOnly(price)) == b.(price := Some(price))
  {
  }

  /** An empty payload changes nothing. */
  lemma EmptyUpdateKeepsBook(b: BookRow)
    ensures MergeBook(b, NoChanges) == b
  {
  }

  /** Applying the same partial update twice is the same as applying it once. */
  lemma MergeBookIdempotent(b: BookRow, req: BookRequest)
    ensures MergeBook(MergeBook(b, req), req) == MergeBook(b, req)
  {
  }

  /** A partial update never touches the book's link to its detail. */
  lemma MergeBookKeepsDetailLink(b: BookRow, req: BookRequest)
    ensures MergeBook(b, req).detail == b.detail
  {
  }

  /** A detail payload with every sub-field present overwrites the detail completely. */
  lemma FullDetailMergeIsReplacement(d: DetailRow, dr: DetailRequest)
    requires dr.description.Some? && dr.language.Some? && dr.pageCount.Some?
    requires dr.publisher.Some? && dr.coverImageUrl.Some? && dr.edition.Some?
    ensures MergeDetail(d, dr) == NewDetail(dr, d.book)
  {
  }

  /** A detail payload with every sub-field null keeps the detail as it was. */
  lemma EmptyDetailMergeKeepsDetail(d: DetailRow)
    ensures MergeDetail(d, DetailRequest(None, None, None, None, None, None)) == d
  {
  }

  // ===== conditions the writes check =====

  /** Some stored book already holds this isbn (existsByIsbn). */
  ghost predicate IsbnTaken(db: Db, isbn: string) {
    exists k :: k in db.books && db.books[k].isbn == isbn
  }

  /** The first NOT NULL book column the payload leaves null, in column order. */
  function MissingBookColumn(req: BookRequest): Option<string> {
    if req.title.None? then Some("title")
    else if req.author.None? then Some("author")
    else if req.isbn.None? then Some("isbn")
    else None
  }

  /** The new book row a successful create stores. */
  function NewBook(req: BookRequest, detail: Option<nat>): BookRow
    requires MissingBookColumn(req).None?
  {
    BookRow(req.title.value, req.author.value, req.isbn.value, req.price, req.publishDate, req.publisherId, detail)
  }

  /** The update changes the isbn to one that a different book already holds. */
  ghost predicate IsbnClash(db: Db, id: nat, req: BookRequest)
    requires id in db.books
  {
    && req.isbn.Some? && req.isbn.value != db.books[id].isbn
    && exists k :: k in db.books && k != id && db.books[k].isbn == req.isbn.value
  }

  // ===== the transactions =====

  /**
    The store after a create that passed every check: the book under the
    next book key and, for a detail payload, its detail under the next
    detail key, pointing back at the book.
  */
  function InsertBook(db: Db, req: BookRequest): Db
    requires MissingBookColumn(req).None?
  {
    var id := db.nextBookId;
    match req.detail
    case None =>
      db.(books := db.books[id := NewBook(req, None)], nextBookId := id + 1)
    case Some(dr) =>
      var d := db.nextDetailId;
      db.(books := db.books[id := NewBook(req, Some(d))], nextBookId := id + 1,
          details := db.details[d := NewDetail(dr, id)], nextDetailId := d + 1)
  }

  /**
    The store after an update that passed every check: the merged row and,
    for a detail payload, a new detail when the book had none, or the old
    one merged sub-field by sub-field.
  */
  function ApplyUpdate(db: Db, id: nat, req: BookRequest): Db
    requires id in db.books
  {
    var merged := MergeBook(db.books[id], req);
    match req.detail
    case None => db.(books := db.books[id := merged])
    case Some(dr) =>
      match merged.detail
      case None =>
        var d := db.nextDetailId;
        db.(books := db.books[id := merged.(detail := Some(d))],
            details := db.details[d := NewDetail(dr, id)], nextDetailId := d + 1)
      case Some(d) =>
        if d in db.details then
          db.(books := db.books[id := merged], details := db.details[d := MergeDetail(db.details[d], dr)])
        else
          db.(books := db.books[id := merged])
  }

  /**
    createBook as a transaction: the isbn check, then the publisher lookup
    (findById(null) fails too), then the NOT NULL columns.
  */
  function CreateBookTx(db: Db, req: BookRequest): Tx<BookResponse>
    requires KeysIssued(db)
  {
    if req.isbn.Some? && FindBookByIsbn(db, req.isbn.value).Some? then
      Tx(Err(Duplicate("Book", "isbn", TextValue(req.isbn.value))), db)
    else if req.publisherId.None? then
      Tx(Err(MissingField("Book", "publisherId")), db)
    else if req.publisherId.value !in db.publishers then
      Tx(Err(NotFound("Publisher", "id", IdValue(req.publisherId.value))), db)
    else if MissingBookColumn(req).Some? then
      Tx(Err(MissingField("Book", MissingBookColumn(req).value)), db)
    else
      var after := InsertBook(db, req);
      Tx(Ok(ToResponseWithPublisherCount(after, db.nextBookId)), after)
  }

  /**
    updateBook as a transaction: NotFound, then the isbn check against other
    books when the isbn changes, then the publisher lookup when one is given.
  */
  function UpdateBookTx(db: Db, id: nat, req: BookRequest): Tx<BookResponse>
    requires KeysIssued(db)
  {
    if id !in db.books then
      Tx(Err(NotFound("Book", "id", IdValue(id))), db)
    else if && req.isbn.Some? && req.isbn.value != db.books[id].isbn
            && FindBookByIsbn(db, req.isbn.value).Some? && FindBookByIsbn(db, req.isbn.value).value != id then
      Tx(Err(Duplicate("Book", "isbn", TextValue(req.isbn.value))), db)
    else if req.publisherId.Some? && req.publisherId.value !in db.publishers then
      Tx(Err(NotFound("Publisher", "id", IdValue(req.publisherId.value))), db)
    else
      var after := ApplyUpdate(db, id, req);
      Tx(Ok(ToResponseWithPublisherCount(after, id)), after)
  }

  /** deleteBook as a transaction: NotFound, or the book and (by cascade) its detail removed. */
  function DeleteBookTx(db: Db, id: nat): Tx<()>
  {
    if id !in db.books then
      Tx(Err(NotFound("Book", "id", IdValue(id))), db)
    else
      Tx(Ok(()), db.(books := db.books - {id}, details := db.details - DetailKeys(db.books[id])))
  }

  // ===== the store invariant across the writes =====

  /** A row whose isbn no other row holds can be written under any key without breaking uniqueness. */
  lemma {:induction false} IsbnUniqueAfterWrite(books: map<nat, BookRow>, id: nat, row: BookRow)
    requires IsbnUnique(books)
    requires forall k :: k in books && k != id ==> books[k].isbn != row.isbn
    ensures IsbnUnique(books[id := row])
  {
    var written := books[id := row];
    forall j, k | j in written && k in written && j != k
      ensures written[j].isbn != written[k].isbn
    {
      if j != id && k != id {
        assert written[j] == books[j] && written[k] == books[k];
      }
    }
  }

  /** A create that passed every check leaves the store consistent. */
  lemma {:induction false} InsertBookKeepsConsistent(db: Db, req: BookRequest)
    requires Consistent(db) && MissingBookColumn(req).None? && !IsbnTaken(db, req.isbn.value)
    requires req.publisherId.Some? && req.publisherId.value in db.publishers
    ensures Consistent(InsertBook(db, req))
  {
    var after := InsertBook(db, req);
    var id := db.nextBookId;
    var row := after.books[id];
    assert id !in db.books;
    IsbnUniqueAfterWrite(db.books, id, row);
    match req.detail
    case None =>
      LinkedAfterPlainInsert(db.books, db.details, id, row);
    case Some(dr) =>
      assert db.nextDetailId !in db.details;
      LinkedAfterAttach(db.books, db.details, id, row, db.nextDetailId, NewDetail(dr, id));
  }

  /** An update writes only the book's row and, possibly, one detail; the keys stay issued and the publishers stay. */
  lemma {:induction false} ApplyUpdateKeepsKeys(db: Db, id: nat, req: BookRequest)
    requires KeysIssued(db) && PublishersExist(db) && id in db.books
    requires req.publisherId.Some? ==> req.publisherId.value in db.publishers
    ensures var after := ApplyUpdate(db, id, req);
            && after.publishers == db.publishers && after.books.Keys == db.books.Keys
            && KeysIssued(after) && PublishersExist(after)
  {
    var after := ApplyUpdate(db, id, req);
    var row := after.books[id];
    assert after.books == db.books[id := row];
    assert row.publisher == MergeBook(db.books[id], req).publisher;
    assert after.details.Keys <= db.details.Keys + {db.nextDetailId};
    assert db.nextDetailId <= after.nextDetailId;
  }

  /** The updated row takes an isbn no other book holds, so isbn stays unique. */
  lemma {:induction false} ApplyUpdateKeepsIsbnUnique(db: Db, id: nat, req: BookRequest)
    requires IsbnUnique(db.books) && id in db.books && !IsbnClash(db, id, req)
    ensures IsbnUnique(ApplyUpdate(db, id, req).books)
  {
    var after := ApplyUpdate(db, id, req);
    var row := after.books[id];
    assert after.books == db.books[id := row];
    assert row.isbn == MergeBook(db.books[id], req).isbn;
    IsbnUniqueAfterWrite(db.books, id, row);
  }

  /** An update keeps book and detail pointing at each other, whichever detail branch it takes. */
  lemma {:induction false} ApplyUpdateKeepsLinks(db: Db, id: nat, req: BookRequest)
    requires KeysIssued(db) && DetailsLinked(db) && id in db.books
    ensures DetailsLinked(ApplyUpdate(db, id, req))
  {
    var after := ApplyUpdate(db, id, req);
    var was := db.books[id];
    var row := after.books[id];
    MergeBookKeepsDetailLink(was, req);
    assert after.books == db.books[id := row];
    match req.detail
    case None =>
      LinkedAfterRewrite(db.books, db.details, id, row);
    case Some(dr) =>
      if was.detail.None? {
        assert db.nextDetailId !in db.details;
        LinkedAfterAttach(db.books, db.details, id, row, db.nextDetailId, NewDetail(dr, id));
      } else if was.detail.value in db.details {
        var d := was.detail.value;
        LinkedAfterRewrite(db.books, db.details, id, row);
        LinkedAfterDetailRewrite(db.books[id := row], db.details, d, MergeDetail(db.details[d], dr));
      } else {
        assert false;  // a linked book's detail is stored
      }
  }

  /** An update that passed every check leaves the store consistent. */
  lemma ApplyUpdateKeepsConsistent(db: Db, id: nat, req: BookRequest)
    requires Consistent(db) && id in db.books && !IsbnClash(db, id, req)
    requires req.publisherId.Some? ==> req.publisherId.value in db.publishers
    ensures Consistent(ApplyUpdate(db, id, req))
  {
    ApplyUpdateKeepsKeys(db, id, req);
    ApplyUpdateKeepsIsbnUnique(db, id, req);
    ApplyUpdateKeepsLinks(db, id, req);
  }

  /** A create keeps the store consistent, whether it fails or succeeds. */
  lemma CreateBookKeepsConsistent(db: Db, req: BookRequest)
    requires Consistent(db)
    ensures Consistent(CreateBookTx(db, req).db)
  {
    if CreateBookTx(db, req).result.Ok? {
      assert FindBookByIsbn(db, req.isbn.value).None?;
      InsertBookKeepsConsistent(db, req);
    }
  }

  /** An update keeps the store consistent, whether it fails or succeeds. */
  lemma UpdateBookKeepsConsistent(db: Db, id: nat, req: BookRequest)
    requires Consistent(db)
    ensures Consistent(UpdateBookTx(db, id, req).db)
  {
    if UpdateBookTx(db, id, req).result.Ok? {
      UpdateBookNoClash(db, id, req);
      ApplyUpdateKeepsConsistent(db, id, req);
    }
  }

  /** A delete keeps the store consistent: the cascade leaves no detail behind. */
  lemma DeleteBookKeepsConsistent(db: Db, id: nat)
    requires Consistent(db)
    ensures Consistent(DeleteBookTx(db, id).db)
  {
    if id in db.books {
      LinkedAfterRemove(db.books, db.details, id);
    }
  }

  // ===== what the transactions guarantee =====

  /** A create whose isbn is taken fails with Duplicate and changes nothing, whatever else is wrong with it. */
  lemma CreateBookRejectsTakenIsbn(db: Db, req: BookRequest)
    requires Consistent(db) && req.isbn.Some? && IsbnTaken(db, req.isbn.value)
    ensures CreateBookTx(db, req) == Tx(Err(Duplicate("Book", "isbn", TextValue(req.isbn.value))), db)
  {
    var k :| k in db.books && db.books[k].isbn == req.isbn.value;
    assert FindBookByIsbn(db, req.isbn.value).Some?;
  }

  /**
    With a free isbn, a create without a publisher id, with an unknown
    publisher, or with a null NOT NULL column fails and changes nothing.
  */
  lemma CreateBookChecksPublisherThenColumns(db: Db, req: BookRequest)
    requires Consistent(db) && !(req.isbn.Some? && IsbnTaken(db, req.isbn.value))
    ensures req.publisherId.None? ==>
              CreateBookTx(db, req) == Tx(Err(MissingField("Book", "publisherId")), db)
    ensures req.publisherId.Some? && req.publisherId.value !in db.publishers ==>
              CreateBookTx(db, req) == Tx(Err(NotFound("Publisher", "id", IdValue(req.publisherId.value))), db)
    ensures req.publisherId.Some? && req.publisherId.value in db.publishers && MissingBookColumn(req).Some? ==>
              CreateBookTx(db, req) == Tx(Err(MissingField("Book", MissingBookColumn(req).value)), db)
  {
    if req.isbn.Some? {
      assert FindBookByIsbn(db, req.isbn.value).None?;
    }
  }

  /** A create succeeds exactly when the isbn is free, the publisher exists and no NOT NULL column is null. */
  lemma CreateBookSucceedsIff(db: Db, req: BookRequest)
    requires Consistent(db)
    ensures CreateBookTx(db, req).result.Ok? <==>
              && MissingBookColumn(req).None? && !IsbnTaken(db, req.isbn.value)
              && req.publisherId.Some? && req.publisherId.value in db.publishers
  {
    if req.isbn.Some? && IsbnTaken(db, req.isbn.value) {
      CreateBookRejectsTakenIsbn(db, req);
    } else {
      CreateBookChecksPublisherThenColumns(db, req);
    }
  }

  /** A create that passes every check commits InsertBook and answers with the new book's projection. */
  lemma CreateBookCommitsInsert(db: Db, req: BookRequest)
    requires Consistent(db) && MissingBookColumn(req).None? && !IsbnTaken(db, req.isbn.value)
    requires req.publisherId.Some? && req.publisherId.value in db.publishers
    ensures var after := InsertBook(db, req);
            && db.nextBookId in after.books
            && CreateBookTx(db, req) == Tx(Ok(ToResponseWithPublisherCount(after, db.nextBookId)), after)
  {
    assert FindBookByIsbn(db, req.isbn.value).None?;
  }

  /**
    A create that passes every check adds exactly one book, under the next
    key, with the given fields and publisher; the publishers are untouched;
    a detail payload yields one new detail whose back-reference is the new
    book, and no payload yields no detail.
  */
  lemma CreateBookAddsOneBook(db: Db, req: BookRequest)
    requires Consistent(db) && MissingBookColumn(req).None? && !IsbnTaken(db, req.isbn.value)
    requires req.publisherId.Some? && req.publisherId.value in db.publishers
    ensures var tx := CreateBookTx(db, req);
            var id := db.nextBookId;
            && tx.result.Ok?
            && id !in db.books && id in tx.db.books
            && tx.db.books == db.books[id := NewBook(req, tx.db.books[id].detail)]
            && |tx.db.books| == |db.books| + 1
            && tx.db.books[id].publisher == req.publisherId
            && tx.db.publishers == db.publishers
            && (req.detail.None? ==> tx.db.books[id].detail.None? && tx.db.details == db.details)
            && (req.detail.Some? ==>
                  && tx.db.books[id].detail == Some(db.nextDetailId)
                  && db.nextDetailId !in db.details
                  && tx.db.details == db.details[db.nextDetailId := NewDetail(req.detail.value, id)])
  {
    var id := db.nextBookId;
    assert id !in db.books;
    CreateBookCommitsInsert(db, req);
    var after := InsertBook(db, req);
    assert after.books == db.books[id := after.books[id]];
  }

  /** The new book's response shows its publisher with the old count plus one. */
  lemma CreateBookCountsNewBook(db: Db, req: BookRequest)
    requires Consistent(db) && MissingBookColumn(req).None? && !IsbnTaken(db, req.isbn.value)
    requires req.publisherId.Some? && req.publisherId.value in db.publishers
    ensures var tx := CreateBookTx(db, req);
            var pid := req.publisherId.value;
            && tx.result.Ok? && tx.result.value.id == db.nextBookId
            && tx.result.value.publisher
                 == Some(PublisherSummary(pid, db.publishers[pid].name, PublisherBookCount(db.books, pid) + 1))
  {
    var id := db.nextBookId;
    assert id !in db.books;
    CreateBookCommitsInsert(db, req);
    var after := InsertBook(db, req);
    assert after.books == db.books[id := after.books[id]];
    CountAfterInsert(db.books, id, after.books[id], req.publisherId.value);
  }

  /** An update of a missing book fails with NotFound and changes nothing. */
  lemma UpdateBookRejectsMissingBook(db: Db, id: nat, req: BookRequest)
    requires Consistent(db) && id !in db.books
    ensures UpdateBookTx(db, id, req) == Tx(Err(NotFound("Book", "id", IdValue(id))), db)
  {
  }

  /** Changing the isbn to one a different book holds fails with Duplicate and changes nothing. */
  lemma UpdateBookRejectsIsbnClash(db: Db, id: nat, req: BookRequest)
    requires Consistent(db) && id in db.books && IsbnClash(db, id, req)
    ensures UpdateBookTx(db, id, req) == Tx(Err(Duplicate("Book", "isbn", TextValue(req.isbn.value))), db)
  {
    var k :| k in db.books && k != id && db.books[k].isbn == req.isbn.value;
    IsbnLookupExact(db, req.isbn.value, k);
  }

  /** Without an isbn clash the duplicate check lets the update through. */
  lemma UpdateBookNoClash(db: Db, id: nat, req: BookRequest)
    requires Consistent(db) && id in db.books
    ensures !IsbnClash(db, id, req) <==>
              !(&& req.isbn.Some? && req.isbn.value != db.books[id].isbn
                && FindBookByIsbn(db, req.isbn.value).Some? && FindBookByIsbn(db, req.isbn.value).value != id)
  {
    if IsbnClash(db, id, req) {
      var k :| k in db.books && k != id && db.books[k].isbn == req.isbn.value;
      IsbnLookupExact(db, req.isbn.value, k);
    }
  }

  /** Without an isbn clash, naming an unknown publisher fails with NotFound and changes nothing. */
  lemma UpdateBookRejectsUnknownPublisher(db: Db, id: nat, req: BookRequest)
    requires Consistent(db) && id in db.books && !IsbnClash(db, id, req)
    requires req.publisherId.Some? && req.publisherId.value !in db.publishers
    ensures UpdateBookTx(db, id, req) == Tx(Err(NotFound("Publisher", "id", IdValue(req.publisherId.value))), db)
  {
    UpdateBookNoClash(db, id, req);
  }

  /** An absent isbn, or the book's own isbn, never makes an update fail with Duplicate. */
  lemma UpdateBookSkipsUnchangedIsbn(db: Db, id: nat, req: BookRequest)
    requires Consistent(db) && id in db.books
    requires req.isbn.None? || req.isbn == Some(db.books[id].isbn)
    requires req.publisherId.Some? ==> req.publisherId.value in db.publishers
    ensures UpdateBookTx(db, id, req).result.Ok?
  {
  }

  /**
    A successful update rewrites only this book: present fields overwrite,
    absent ones stay; without a detail payload its detail is untouched; with
    one, a book lacking a detail gets a new one that points back at it and a
    book with a detail has it merged sub-field by sub-field.
  */
  lemma UpdateBookMerges(db: Db, id: nat, req: BookRequest)
    requires Consistent(db) && id in db.books && !IsbnClash(db, id, req)
    requires req.publisherId.Some? ==> req.publisherId.value in db.publishers
    ensures var tx := UpdateBookTx(db, id, req);
            var was := db.books[id];
            && tx.result.Ok? && id in tx.db.books
            && tx.db.books == db.books[id := MergeBook(was, req).(detail := tx.db.books[id].detail)]
            && tx.db.publishers == db.publishers
            && (req.detail.None? ==> tx.db.books[id].detail == was.detail && tx.db.details == db.details)
            && (req.detail.Some? && was.detail.None? ==>
                  && tx.db.books[id].detail == Some(db.nextDetailId)
                  && db.nextDetailId !in db.details
                  && tx.db.details == db.details[db.nextDetailId := NewDetail(req.detail.value, id)])
            && (req.detail.Some? && was.detail.Some? ==>
                  && tx.db.books[id].detail == was.detail
                  && tx.db.details == db.details[was.detail.value :=
                                        MergeDetail(db.details[was.detail.value], req.detail.value)])
            && tx.result.value == ToResponseWithPublisherCount(tx.db, id)
  {
    UpdateBookNoClash(db, id, req);
    MergeBookKeepsDetailLink(db.books[id], req);
  }

  /**
    An update carrying only a price changes that book's price and nothing
    else: title, author, isbn, publisher, publish date, its detail, the other
    books and the publishers stay as they were.
  */
  lemma UpdateBookPriceOnly(db: Db, id: nat, price: int)
    requires Consistent(db) && id in db.books
    ensures UpdateBookTx(db, id, PriceOnly(price)).db == db.(books := db.books[id := db.books[id].(price := Some(price))])
  {
  }

  /**
    A delete of a missing book fails with NotFound and changes nothing;
    otherwise the book and its detail are gone, no detail refers to it, the
    publishers are untouched, a later lookup finds nothing, and only its own
    publisher's count drops, by one.
  */
  lemma DeleteBookRemoves(db: Db, id: nat)
    requires Consistent(db)
    ensures id !in db.books ==> DeleteBookTx(db, id) == Tx(Err(NotFound("Book", "id", IdValue(id))), db)
    ensures id in db.books ==>
              var after := DeleteBookTx(db, id).db;
              && DeleteBookTx(db, id).result.Ok?
              && after.books == db.books - {id}
              && after.details == db.details - DetailKeys(db.books[id])
              && after.publishers == db.publishers
              && (forall d :: d in after.details ==> after.details[d].book != id)
              && Consistent(after)
              && GetBookById(after, id) == Err(NotFound("Book", "id", IdValue(id)))
              && (forall pid: nat :: PublisherBookCount(after.books, pid)
                    == PublisherBookCount(db.books, pid) - (if db.books[id].publisher == Some(pid) then 1 else 0))
  {
    if id in db.books {
      DeleteBookKeepsConsistent(db, id);
      forall pid: nat
        ensures PublisherBookCount(db.books - {id}, pid)
             == PublisherBookCount(db.books, pid) - (if db.books[id].publisher == Some(pid) then 1 else 0)
      {
        CountAfterRemove(db.books, id, pid);
      }
    }
  }

  // ===== the service methods =====

  /** save(book): stores the new book and, for a detail payload, its detail, each under its next key. */
  method StoreNewBook(c: Catalog, req: BookRequest) returns (id: nat)
    requires MissingBookColumn(req).None?
    modifies c
    ensures id == old(c.nextBookId) && id in c.books
    ensures c.View() == InsertBook(old(c.View()), req)
  {
    id := c.nextBookId;
    var detail: Option<nat> := None;
    if req.detail.Some? {
      var d := c.nextDetailId;
      c.details := c.details[d := NewDetail(req.detail.value, id)];
      c.nextDetailId := d + 1;
      detail := Some(d);
    }
    c.books := c.books[id := NewBook(req, detail)];
    c.nextBookId := id + 1;
  }

  /** createBook: runs the create transaction on the catalog. */
  method CreateBook(c: Catalog, req: BookRequest) returns (r: Result<BookResponse>)
    requires c.Valid()
    modifies c
    ensures c.Valid()
    ensures Tx(r, c.View()) == CreateBookTx(old(c.View()), req)
  {
    ghost var before := c.View();
    CreateBookKeepsConsistent(before, req);
    if req.isbn.Some? && FindBookByIsbn(c.View(), req.isbn.value).Some? {
      return Err(Duplicate("Book", "isbn", TextValue(req.isbn.value)));
    }
    if req.publisherId.None? {
      return Err(MissingField("Book", "publisherId"));
    }
    var pid := req.publisherId.value;
    if pid !in c.publishers {
      return Err(NotFound("Publisher", "id", IdValue(pid)));
    }
    var missing := MissingBookColumn(req);
    if missing.Some? {
      return Err(MissingField("Book", missing.value));
    }
    var id := StoreNewBook(c, req);
    r := Ok(ToResponseWithPublisherCount(c.View(), id));
  }

  /** The book fields the payload carries overwrite the row's, one by one; the detail link stays. */
  method MergeBookFields(row: BookRow, req: BookRequest) returns (merged: BookRow)
    ensures merged == MergeBook(row, req)
  {
    merged := row;
    if req.isbn.Some? { merged := merged.(isbn := req.isbn.value); }
    if req.publisherId.Some? { merged := merged.(publisher := req.publisherId); }
    if req.title.Some? { merged := merged.(title := req.title.value); }
    if req.author.Some? { merged := merged.(author := req.author.value); }
    if req.price.Some? { merged := merged.(price := req.price); }
    if req.publishDate.Some? { merged := merged.(publishDate := req.publishDate); }
  }

  /** The detail sub-fields the payload carries overwrite the row's, one by one. */
  method MergeDetailFields(row: DetailRow, dr: DetailRequest) returns (merged: DetailRow)
    ensures merged == MergeDetail(row, dr)
  {
    merged := row;
    if dr.description.Some? { merged := merged.(description := dr.description); }
    if dr.language.Some? { merged := merged.(language := dr.language); }
    if dr.pageCount.Some? { merged := merged.(pageCount := dr.pageCount); }
    if dr.publisher.Some? { merged := merged.(publisher := dr.publisher); }
    if dr.coverImageUrl.Some? { merged := merged.(coverImageUrl := dr.coverImageUrl); }
    if dr.edition.Some? { merged := merged.(edition := dr.edition); }
  }

  /**
    The assignments of updateBook once its checks have passed: the book's
    fields, then its detail, created or merged.
  */
  method ApplyUpdateInPlace(c: Catalog, id: nat, req: BookRequest)
    requires id in c.books
    modifies c
    ensures c.View() == ApplyUpdate(old(c.View()), id, req)
  {
    var book := MergeBookFields(c.books[id], req);
    if req.detail.Some? {
      var dr := req.detail.value;
      if book.detail.None? {
        var d := c.nextDetailId;
        c.details := c.details[d := NewDetail(dr, id)];
        c.nextDetailId := d + 1;
        book := book.(detail := Some(d));
      } else if book.detail.value in c.details {
        var d := book.detail.value;
        var row := MergeDetailFields(c.details[d], dr);
        c.details := c.details[d := row];
      }
    }
    c.books := c.books[id := book];
  }

  /** updateBook: applies the checks and the field-by-field merge to the catalog. */
  method UpdateBook(c: Catalog, id: nat, req: BookRequest) returns (r: Result<BookResponse>)
    requires c.Valid()
    modifies c
    ensures c.Valid()
    ensures Tx(r, c.View()) == UpdateBookTx(old(c.View()), id, req)
  {
    ghost var before := c.View();
    UpdateBookKeepsConsistent(before, id, req);
    if id !in c.books {
      return Err(NotFound("Book", "id", IdValue(id)));
    }
    if req.isbn.Some? && req.isbn.value != c.books[id].isbn {
      var dup := FindBookByIsbn(c.View(), req.isbn.value);
      if dup.Some? && dup.value != id {
        return Err(Duplicate("Book", "isbn", TextValue(req.isbn.value)));
      }
    }
    if req.publisherId.Some? && req.publisherId.value !in c.publishers {
      return Err(NotFound("Publisher", "id", IdValue(req.publisherId.value)));
    }
    ApplyUpdateInPlace(c, id, req);
    r := Ok(ToResponseWithPublisherCount(c.View(), id));
  }

  /** deleteBook: removes the book and, by cascade, its detail from the catalog. */
  method DeleteBook(c: Catalog, id: nat) returns (r: Result<()>)
    requires c.Valid()
    modifies c
    ensures c.Valid()
    ensures Tx(r, c.View()) == DeleteBookTx(old(c.View()), id)
  {
    DeleteBookKeepsConsistent(c.View(), id);
    if id !in c.books {
      return Err(NotFound("Book", "id", IdValue(id)));
    }
    var book := c.books[id];
    c.details := c.details - DetailKeys(book);
    c.books := c.books - {id};
    r := Ok(());
  }
}

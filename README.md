# Catalog consistency layer of MySpringBootProjcet, in Dafny

This project models the core of a small Spring Boot book catalog. It covers
three parts:

- The two domain services. `BookService` lists, looks up, searches, creates,
  partially updates and deletes books. `PublisherService` lists, looks up,
  creates, replaces and deletes publishers.
- The record store behind their repositories. There are three tables (books,
  book details, publishers), each with an identity key.
- The in-memory relationship helpers of the JPA entities. `Book.setBookDetail`
  and `BookDetail.setBook` keep the one-to-one link in step.
  `Publisher.addBook` and `removeBook` edit the reverse book list.

How the source becomes Dafny:

- **The store** (`Store`) is a `Db` value: one `map` per table, keyed by
  primary key, plus the next key each identity column hands out.
- **The invariant** `Consistent` collects the schema and link rules. isbn is
  unique, publisher name is unique, every book's publisher exists, and a book
  and its detail point at each other.
- **The repositories' state** is the `Catalog` class. Its fields are those
  maps and counters.
- **Each write** has two parts:
  - a transaction function (`CreateBookTx`, `UpdatePublisherTx`, ...) that
    gives the result and the store left behind;
  - a method on `Catalog` that does the same checks and updates step by step.
    It ensures that its result and new state equal the transaction function's,
    and that `Valid()` still holds.
- **Rollback.** Every error path returns before any field is assigned. This is
  how the `@Transactional` rollback is modelled: a failed write leaves every
  table as it was.
- **Properties of the writes** are lemmas over the transaction functions.
- **Reads** are functions over the store value.
- **Entities** (`Entities`) are heap classes with nullable references. Their
  setters are methods with field-granular `modifies` frames.

Modelling decisions:

- **Nulls.** A request field the client leaves null is `None`.
- **Null NOT NULL columns.** When a null would reach a NOT NULL column (title,
  author, isbn, publisher name), the source fails when the row is flushed. The
  model reports this as `MissingField`, at the same point in the check order.
  The duplicate check comes first, and `existsByIsbn(null)` and
  `findByName(null)` match nothing. A create with a null `publisherId` fails
  because `findById(null)` throws; the model reports that as
  `MissingField("Book", "publisherId")`.
- **Store order** is ascending primary key. A listing returns rows in that
  order.
- **Ids** are unbounded naturals, not 64-bit longs.
- **Dates** are integers (day numbers).
- **Case-insensitive search** lowers ASCII letters only.
- **The book's publisher.** `BookService.java` reads and writes a `publisher`
  property of `Book` that `entity/Book.java` does not declare. The model adds
  it as a nullable reference in `Entities.Book` and as a nullable foreign key
  in `Store.BookRow`, following how the service uses it.
- **Updates check before they merge.** `updateBook` interleaves its two checks
  with assignments to the managed entity. The model does both checks first and
  then merges. Both orders leave the same state, because a failing check rolls
  back every assignment anyway.

The lemmas of module `Scenario` chain the transaction functions from the empty
store:

- publisher "Acme", two books with counts 1 and 2, a refused publisher delete,
  then a successful one;
- a rejected duplicate isbn, and a failed isbn lookup.

## Model

| member | source | states |
|---|---|---|
| Common.IsSubstringAt | src/main/java/com/rookies4/myspringbootlab/service/BookService.java:58-71 | the recursive "contains" test holds exactly when the query occurs at some position of the text |
| Common.EmptyQueryMatchesAll | src/main/java/com/rookies4/myspringbootlab/service/BookService.java:58-71 | an empty search string matches every title and author |
| Common.QueryCaseIgnored | src/main/java/com/rookies4/myspringbootlab/service/BookService.java:58-71 | the match does not depend on the letter case of the query |
| Store.OneDetailPerBook | src/main/java/com/rookies4/myspringbootlab/entity/BookDetail.java:40-42 | in a consistent store two details with the same book are the same detail (the unique join column) |
| Store.CountAfterInsert | src/main/java/com/rookies4/myspringbootlab/service/BookService.java:238 | storing a book under a fresh key raises its publisher's live count by one and leaves every other count unchanged |
| Store.CountAfterRemove | src/main/java/com/rookies4/myspringbootlab/service/BookService.java:238 | removing a book lowers its publisher's count by one and leaves every other count unchanged |
| Store.CountAfterReplace | src/main/java/com/rookies4/myspringbootlab/service/BookService.java:238 | rewriting a book moves it from its old publisher's count to its new one's |
| Store.LinkedAfterRewrite | src/main/java/com/rookies4/myspringbootlab/entity/Book.java:37-42 | rewriting a book's columns without touching its detail link keeps book and detail pointing at each other |
| Store.LinkedAfterDetailRewrite | src/main/java/com/rookies4/myspringbootlab/entity/BookDetail.java:40-42 | rewriting a detail's columns without touching its book link keeps the links |
| Store.LinkedAfterAttach | src/main/java/com/rookies4/myspringbootlab/entity/Book.java:45-50 | attaching a fresh detail to a book that had none, with the detail pointing back, keeps the links |
| Store.LinkedAfterPlainInsert | src/main/java/com/rookies4/myspringbootlab/service/BookService.java:124-131 | storing a new book without a detail under a fresh key keeps the links |
| Store.LinkedAfterRemove | src/main/java/com/rookies4/myspringbootlab/entity/Book.java:37-40 | removing a book together with its detail (the cascade) keeps the links; no detail is left orphaned |
| Store.FindBookByIsbn | src/main/java/com/rookies4/myspringbootlab/service/BookService.java:48-49 | a found key holds the isbn; no result means no book holds it |
| Store.FindPublisherByName | src/main/java/com/rookies4/myspringbootlab/service/PublisherService.java:49 | a found key holds the name; no result means no publisher holds it |
| Store.IsbnLookupExact | src/main/java/com/rookies4/myspringbootlab/entity/Book.java:29-30 | with isbn unique, the lookup returns key k exactly when book k holds the isbn |
| Store.NameLookupExact | src/main/java/com/rookies4/myspringbootlab/entity/Publisher.java:24-25 | with names unique, the lookup returns key k exactly when publisher k holds the name |
| Entities.Book.SetBookDetail | src/main/java/com/rookies4/myspringbootlab/entity/Book.java:45-50 | the book holds the detail and the detail points back at the book; the guard allows at most one nested setter call, made exactly when the back-reference was missing; a previously attached detail keeps its back-reference |
| Entities.BookDetail.SetBook | src/main/java/com/rookies4/myspringbootlab/entity/BookDetail.java:45-50 | the detail points at the book and the book holds the detail; at most one nested call, made exactly when the book did not hold it; the previous book is not told |
| Entities.Publisher.AddBook | src/main/java/com/rookies4/myspringbootlab/entity/Publisher.java:44-48 | null is ignored; otherwise the book is appended (the list grows by one) and its publisher becomes this one; the previous publisher's list is unchanged |
| Entities.Publisher.RemoveBook | src/main/java/com/rookies4/myspringbootlab/entity/Publisher.java:50-56 | null is ignored; otherwise the first occurrence is removed, and the book's publisher is cleared only if it was this one, otherwise kept |
| Entities.RemoveFirstCutsFirstOccurrence | src/main/java/com/rookies4/myspringbootlab/entity/Publisher.java:52 | removal cuts out exactly the first occurrence and keeps the rest in order |
| Entities.RemoveFirstAbsent | src/main/java/com/rookies4/myspringbootlab/entity/Publisher.java:52 | removing an absent book leaves the list unchanged |
| Entities.RemoveFirstMultiset | src/main/java/com/rookies4/myspringbootlab/entity/Publisher.java:52 | removal takes exactly one copy of the book out of the list's contents |
| Entities.RemoveFirstAfterAppend | src/main/java/com/rookies4/myspringbootlab/entity/Publisher.java:44-56 | adding a book not yet listed and then removing it restores the list |
| BookService.ToResponseWithPublisherCount | src/main/java/com/rookies4/myspringbootlab/service/BookService.java:234-245 | the response carries the book's key and isbn; the publisher summary is present exactly when the book has an existing publisher, and then holds that publisher's key, name and current book count, which is at least 1 |
| BookService.ResponseShowsPublisher | src/main/java/com/rookies4/myspringbootlab/service/BookService.java:234-245 | in a consistent store the summary is present exactly when the book has a publisher |
| BookService.GetAllBooks | src/main/java/com/rookies4/myspringbootlab/service/BookService.java:28-33 | one response per stored book: as many responses as books, exactly the stored keys, in increasing key order, each the book's projection |
| BookService.GetBookById | src/main/java/com/rookies4/myspringbootlab/service/BookService.java:36-44 | succeeds exactly when the key is stored, with that book's projection; otherwise NotFound("Book", "id", id) |
| BookService.GetBookByIsbn | src/main/java/com/rookies4/myspringbootlab/service/BookService.java:47-55 | succeeds exactly when some book holds the isbn, returning that book; otherwise NotFound("Book", "isbn", isbn) |
| BookService.GetBooksByAuthor | src/main/java/com/rookies4/myspringbootlab/service/BookService.java:58-63 | exactly the books whose author contains the query ignoring case, in key order, each projected |
| BookService.GetBooksByTitle | src/main/java/com/rookies4/myspringbootlab/service/BookService.java:66-71 | exactly the books whose title contains the query ignoring case, in key order, each projected |
| BookService.GetBooksByPublisherId | src/main/java/com/rookies4/myspringbootlab/service/BookService.java:74-95 | NotFound("Publisher", "id", id) exactly when the publisher is absent; otherwise exactly its books, in key order; every entry carries the same summary, whose count equals the number of books returned and the live count |
| BookService.WithSummary | src/main/java/com/rookies4/myspringbootlab/service/BookService.java:82-94 | the listing keeps the given keys in order; every entry carries the one summary of the publisher with its live count, and equals that book's toResponseWithPublisherCount |
| BookService.PriceOnlyChangesOnlyPrice | src/main/java/com/rookies4/myspringbootlab/service/BookService.java:189-192 | merging a price-only payload changes the price and no other column |
| BookService.EmptyUpdateKeepsBook | src/main/java/com/rookies4/myspringbootlab/service/BookService.java:160-192 | a payload with every field null leaves the row as it was |
| BookService.MergeBookIdempotent | src/main/java/com/rookies4/myspringbootlab/service/BookService.java:160-192 | applying the same partial update twice equals applying it once |
| BookService.MergeBookKeepsDetailLink | src/main/java/com/rookies4/myspringbootlab/service/BookService.java:189-192 | the field merge never touches the book's link to its detail |
| BookService.FullDetailMergeIsReplacement | src/main/java/com/rookies4/myspringbootlab/service/BookService.java:207-214 | a detail payload with every sub-field present overwrites the detail completely |
| BookService.EmptyDetailMergeKeepsDetail | src/main/java/com/rookies4/myspringbootlab/service/BookService.java:207-214 | a detail payload with every sub-field null keeps the detail as it was |
| BookService.IsbnUniqueAfterWrite | src/main/java/com/rookies4/myspringbootlab/entity/Book.java:29-30 | writing a row whose isbn no other row holds keeps isbn unique |
| BookService.InsertBookKeepsConsistent | src/main/java/com/rookies4/myspringbootlab/service/BookService.java:124-146 | a create that passed its checks leaves a consistent store: keys issued, isbn unique, publisher exists, detail linked both ways |
| BookService.ApplyUpdateKeepsKeys | src/main/java/com/rookies4/myspringbootlab/service/BookService.java:175-215 | an accepted update keeps the set of book keys and the publishers, issued keys stay below the counters, and every publisher reference still exists |
| BookService.ApplyUpdateKeepsIsbnUnique | src/main/java/com/rookies4/myspringbootlab/service/BookService.java:160-174 | an update whose isbn no other book holds keeps isbn unique |
| BookService.ApplyUpdateKeepsLinks | src/main/java/com/rookies4/myspringbootlab/service/BookService.java:195-215 | creating a missing detail or merging into the existing one keeps book and detail pointing at each other |
| BookService.ApplyUpdateKeepsConsistent | src/main/java/com/rookies4/myspringbootlab/service/BookService.java:175-215 | an update that passed its checks leaves a consistent store, whether it creates, merges or leaves the detail alone |
| BookService.CreateBookKeepsConsistent | src/main/java/com/rookies4/myspringbootlab/service/BookService.java:98-147 | every create, failed or not, keeps the store consistent |
| BookService.UpdateBookKeepsConsistent | src/main/java/com/rookies4/myspringbootlab/service/BookService.java:150-218 | every update, failed or not, keeps the store consistent |
| BookService.DeleteBookKeepsConsistent | src/main/java/com/rookies4/myspringbootlab/service/BookService.java:221-229 | every delete keeps the store consistent; the cascade leaves no orphan detail |
| BookService.CreateBookRejectsTakenIsbn | src/main/java/com/rookies4/myspringbootlab/service/BookService.java:101-114 | any create with a taken isbn fails with Duplicate("Book", "isbn", isbn), before the publisher check, and the store is unchanged |
| BookService.CreateBookChecksPublisherThenColumns | src/main/java/com/rookies4/myspringbootlab/service/BookService.java:116-121 | with a free isbn: a null publisher id fails, an unknown publisher fails with NotFound("Publisher", "id", id), and a null NOT NULL column fails after that; the store is unchanged each time |
| BookService.CreateBookSucceedsIff | src/main/java/com/rookies4/myspringbootlab/service/BookService.java:99-147 | a create succeeds exactly when title, author and isbn are given, the isbn is free and the publisher exists |
| BookService.CreateBookCommitsInsert | src/main/java/com/rookies4/myspringbootlab/service/BookService.java:124-146 | a create that passes its checks commits exactly the insert under the next key and returns that book's response |
| BookService.CreateBookCountsNewBook | src/main/java/com/rookies4/myspringbootlab/service/BookService.java:145-146 | the response of a successful create carries the new key and its publisher's summary with the old count plus one |
| BookService.CreateBookAddsOneBook | src/main/java/com/rookies4/myspringbootlab/service/BookService.java:124-146 | success stores exactly one new book under the next key with the given fields and publisher; publishers are unchanged; a detail payload adds one detail pointing at the book, and no payload adds none |
| BookService.UpdateBookRejectsMissingBook | src/main/java/com/rookies4/myspringbootlab/service/BookService.java:152-157 | an update of an absent key fails with NotFound("Book", "id", id), and the store is unchanged |
| BookService.UpdateBookRejectsIsbnClash | src/main/java/com/rookies4/myspringbootlab/service/BookService.java:160-174 | changing the isbn to one another book holds fails with Duplicate, and the store is unchanged |
| BookService.UpdateBookNoClash | src/main/java/com/rookies4/myspringbootlab/service/BookService.java:160-174 | the duplicate check fires exactly when the isbn changes to one another book holds |
| BookService.UpdateBookRejectsUnknownPublisher | src/main/java/com/rookies4/myspringbootlab/service/BookService.java:179-186 | without an isbn clash, a given but unknown publisher fails with NotFound("Publisher", "id", id), and the store is unchanged |
| BookService.UpdateBookSkipsUnchangedIsbn | src/main/java/com/rookies4/myspringbootlab/service/BookService.java:160 | a null isbn or the book's own isbn never causes a duplicate failure |
| BookService.UpdateBookMerges | src/main/java/com/rookies4/myspringbootlab/service/BookService.java:175-217 | success rewrites only this book: present fields overwrite and absent ones stay; no detail payload leaves the detail alone; a missing detail is created pointing back at the book; an existing one is merged sub-field by sub-field; publishers are unchanged |
| BookService.UpdateBookPriceOnly | src/main/java/com/rookies4/myspringbootlab/service/BookService.java:189-192 | a price-only update changes that book's price and nothing else in the store |
| BookService.DeleteBookRemoves | src/main/java/com/rookies4/myspringbootlab/service/BookService.java:222-229 | an absent key fails with NotFound; otherwise exactly the book and its detail are removed, no detail refers to it, publishers are unchanged, a later lookup fails, and only its publisher's count drops, by one |
| BookService.CreateBook | src/main/java/com/rookies4/myspringbootlab/service/BookService.java:98-147 | the catalog's result and new state equal CreateBookTx's, and the catalog stays consistent |
| BookService.StoreNewBook | src/main/java/com/rookies4/myspringbootlab/service/BookService.java:124-145 | builds the row and its optional detail in the catalog, returns the key it used, and leaves exactly the insert of the transaction function |
| BookService.MergeBookFields | src/main/java/com/rookies4/myspringbootlab/service/BookService.java:175-192 | the field-by-field assignments produce the merged row |
| BookService.MergeDetailFields | src/main/java/com/rookies4/myspringbootlab/service/BookService.java:207-214 | the sub-field-by-sub-field assignments produce the merged detail |
| BookService.ApplyUpdateInPlace | src/main/java/com/rookies4/myspringbootlab/service/BookService.java:175-215 | the assignments to the managed book and its detail leave exactly the store the update function describes |
| BookService.UpdateBook | src/main/java/com/rookies4/myspringbootlab/service/BookService.java:150-218 | the catalog's result and new state equal UpdateBookTx's, and the catalog stays consistent |
| BookService.DeleteBook | src/main/java/com/rookies4/myspringbootlab/service/BookService.java:221-229 | the catalog's result and new state equal DeleteBookTx's, and the catalog stays consistent |
| PublisherService.SummaryCountsReferences | src/main/java/com/rookies4/myspringbootlab/service/PublisherService.java:29-32 | the count a publisher summary shows is 0 exactly when no book references the publisher |
| PublisherService.GetAllPublishers | src/main/java/com/rookies4/myspringbootlab/service/PublisherService.java:26-34 | one summary per stored publisher: as many as publishers, exactly the stored keys, in key order, each with name and live book count |
| PublisherService.Summaries | src/main/java/com/rookies4/myspringbootlab/service/PublisherService.java:29-33 | the mapped listing keeps the given keys in their order, each entry that publisher's summary |
| PublisherService.GetPublisherById | src/main/java/com/rookies4/myspringbootlab/service/PublisherService.java:37-45 | succeeds exactly when the key is stored; otherwise NotFound("Publisher", "id", id) |
| PublisherService.GetPublisherByName | src/main/java/com/rookies4/myspringbootlab/service/PublisherService.java:48-55 | succeeds exactly when some publisher holds the name, returning it; otherwise NotFound("Publisher", "name", name) |
| PublisherService.NameUniqueAfterWrite | src/main/java/com/rookies4/myspringbootlab/entity/Publisher.java:24-25 | writing a row whose name no other row holds keeps names unique |
| PublisherService.NoBooksNoReferences | src/main/java/com/rookies4/myspringbootlab/service/PublisherService.java:110-111 | a live count of zero means no book references the publisher |
| PublisherService.CreatePublisherKeepsConsistent | src/main/java/com/rookies4/myspringbootlab/service/PublisherService.java:58-74 | every create keeps the store consistent |
| PublisherService.UpdatePublisherKeepsConsistent | src/main/java/com/rookies4/myspringbootlab/service/PublisherService.java:77-99 | every update keeps the store consistent (names unique) |
| PublisherService.DeletePublisherKeepsConsistent | src/main/java/com/rookies4/myspringbootlab/service/PublisherService.java:102-125 | every delete keeps the store consistent: no book is left pointing at a removed publisher |
| PublisherService.CreatePublisherRejectsTakenName | src/main/java/com/rookies4/myspringbootlab/service/PublisherService.java:60-65 | a create with a taken name fails with Duplicate("Publisher", "name", name), and the store is unchanged |
| PublisherService.CreatePublisherRequiresName | src/main/java/com/rookies4/myspringbootlab/entity/Publisher.java:24-25 | a create without a name fails on the NOT NULL column, and the store is unchanged |
| PublisherService.CreatePublisherAddsOne | src/main/java/com/rookies4/myspringbootlab/service/PublisherService.java:66-73 | a create with a free name adds exactly one publisher under the next key with the given name, date and address; books and details are unchanged; the response shows the stored row |
| PublisherService.CreatePublisherSucceedsIff | src/main/java/com/rookies4/myspringbootlab/service/PublisherService.java:59-74 | a create succeeds exactly when a name is given and no publisher holds it |
| PublisherService.UpdatePublisherRejectsMissing | src/main/java/com/rookies4/myspringbootlab/service/PublisherService.java:79-83 | an update of an absent key fails with NotFound("Publisher", "id", id), and the store is unchanged |
| PublisherService.UpdatePublisherRejectsNameOfOther | src/main/java/com/rookies4/myspringbootlab/service/PublisherService.java:85-92 | renaming to a name a different publisher holds fails with Duplicate, and the store is unchanged |
| PublisherService.UpdatePublisherReplaces | src/main/java/com/rookies4/myspringbootlab/service/PublisherService.java:94-98 | otherwise all three columns are replaced as given, nulls included; other publishers, books and details are unchanged |
| PublisherService.UpdatePublisherKeepsOwnName | src/main/java/com/rookies4/myspringbootlab/service/PublisherService.java:85-92 | keeping the publisher's own name succeeds |
| PublisherService.UpdatePublisherRequiresName | src/main/java/com/rookies4/myspringbootlab/service/PublisherService.java:94 | an update of an existing publisher without a name fails on the NOT NULL column, and the store is unchanged |
| PublisherService.DeletePublisherRejectsMissing | src/main/java/com/rookies4/myspringbootlab/service/PublisherService.java:104-108 | a delete of an absent key fails with NotFound("Publisher", "id", id), and the store is unchanged |
| PublisherService.DeletePublisherRefusesWhileBooks | src/main/java/com/rookies4/myspringbootlab/service/PublisherService.java:110-116 | while some book references the publisher, the delete fails with HasBooks carrying the live count (at least 1), and nothing is deleted |
| PublisherService.DeletePublisherRemovesUnused | src/main/java/com/rookies4/myspringbootlab/service/PublisherService.java:124 | a publisher no book references is removed, and only it; books and details are unchanged; a later lookup fails |
| PublisherService.CreatePublisher | src/main/java/com/rookies4/myspringbootlab/service/PublisherService.java:58-74 | the catalog's result and new state equal CreatePublisherTx's, and the catalog stays consistent |
| PublisherService.UpdatePublisher | src/main/java/com/rookies4/myspringbootlab/service/PublisherService.java:77-99 | the catalog's result and new state equal UpdatePublisherTx's, and the catalog stays consistent |
| PublisherService.DeletePublisher | src/main/java/com/rookies4/myspringbootlab/service/PublisherService.java:102-125 | the catalog's result and new state equal DeletePublisherTx's, and the catalog stays consistent |
| Scenario.AcmeGetsKeyOne | src/main/java/com/rookies4/myspringbootlab/service/PublisherService.java:66-73 | the first publisher created in an empty store gets key 1 |
| Scenario.FirstBookCountsOne | src/main/java/com/rookies4/myspringbootlab/service/BookService.java:124-146 | the first book for it gets key 1 and shows a book count of 1 |
| Scenario.SecondBookCountsTwo | src/main/java/com/rookies4/myspringbootlab/service/BookService.java:124-146 | a second book gets key 2 and shows a count of 2 |
| Scenario.BothBooksShowCountTwo | src/main/java/com/rookies4/myspringbootlab/service/BookService.java:74-95 | listing the publisher's books returns both, each with count 2 |
| Scenario.DeleteRefusedWithTwoBooks | src/main/java/com/rookies4/myspringbootlab/service/PublisherService.java:110-116 | deleting the publisher then fails with HasBooks(1, 2) |
| Scenario.DeleteAllowedOnceBooksGone | src/main/java/com/rookies4/myspringbootlab/service/PublisherService.java:124 | after both books are deleted, deleting the publisher succeeds |
| Scenario.DuplicateIsbnRefused | src/main/java/com/rookies4/myspringbootlab/service/BookService.java:101-114 | creating isbn "111" a second time fails with Duplicate, and one book remains |
| Scenario.UnknownIsbnNotFound | src/main/java/com/rookies4/myspringbootlab/service/BookService.java:47-55 | looking up an isbn nobody holds fails with NotFound("Book", "isbn", isbn) |

## Left out

- Controllers, the exception advice, the HTTP status mapping and the configuration and property classes: they are outside the catalog core. Errors are typed values; `Errors.Error` does not carry status codes or messages.
- `hasIsbnDuplicateCode`: the dedicated ISBN_DUPLICATE code and the generic duplicate code name the same conflict. Both are modelled as one `Duplicate("Book", "isbn", isbn)`.
- Repository query text: the derived and JPQL queries are stored-set operations here. The fetch-join variants (`findByIdWithAllDetails`, `findByIsbnWithBookDetail`, `findByIdWithBooks`) return the same rows as their plain fallbacks. The JPQL in `BookRepository` is not part of this model, including its path `b.detail` that does not match the field `bookDetail`.
- Lazy loading, flush timing, the persistence context and concurrent transactions: the model runs each transaction alone and atomically. The unique constraints are the `Consistent` invariant.
- Column lengths (100 for publisher name, 200 for address, the 255 default) and the TEXT column type: they are schema details the services never check.
- ContainsIgnoreCase: folds ASCII letters only, not Unicode case folding.
- Dates: modelled as integers; `LocalDate` arithmetic is never used by the core.
- Ids: unbounded naturals, so 64-bit overflow is not modelled.
- The response DTOs' own classes (`BookDTO`, `PublisherDTO`) are not part of this model. Responses are the fields the services set. `PublisherService.GetPublisherById` and `PublisherService.GetPublisherByName` do not include the publisher's book list that `PublisherDTO.Response.fromEntity` may add.
- `Publisher.books` in the store: the store derives a publisher's books by query (`Store.BooksOf`) and does not also keep the reverse list. The list exists only on the heap entities (`Entities.Publisher`).
- Orphan removal when a book's detail is replaced by another: the services never replace an attached detail. The store therefore does not model it. `Entities.Book.SetBookDetail` shows that the replaced detail keeps its stale back-reference in memory.
- The Lombok-generated getters, setters, builders and constructors: the entity constructors are modelled, and plain field setters are direct field assignments.

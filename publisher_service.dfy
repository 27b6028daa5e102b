/**
  The publisher operations: reads are functions over the store value, each
  summary carrying the live number of books that reference the publisher;
  writes are methods on the Catalog that keep publisher names unique,
  replace all three columns on update, refuse to delete a publisher that
  still has books, and leave the store untouched on failure.
*/
module PublisherService {
  import opened Common
  import opened Errors
  import opened Store
  import opened Dto

  // ===== reads =====

  /** A publisher with its current number of books (SimpleResponse.fromEntityWithCount). */
  function Summary(db: Db, id: nat): PublisherSummary
    requires id in db.publishers
  {
    PublisherSummary(id, db.publishers[id].name, PublisherBookCount(db.books, id))
  }

  /** The count a summary shows is zero exactly when no book references the publisher. */
  lemma SummaryCountsReferences(db: Db, id: nat)
    requires id in db.publishers
    ensures Summary(db, id).bookCount == 0 <==> forall k :: k in db.books ==> db.books[k].publisher != Some(id)
  {
    if Summary(db, id).bookCount == 0 {
      NoBooksNoReferences(db.books, id);
    } else {
      assert BooksOf(db.books, id) != {};
    }
  }

  /** getAllPublishers: one summary per stored publisher, in primary-key order. */
  function GetAllPublishers(db: Db): (r: seq<PublisherSummary>)
    requires Consistent(db)
    ensures |r| == |db.publishers|
    ensures forall k :: k in PublisherIdsOf(r) <==> k in db.publishers
    ensures Increasing(PublisherIdsOf(r))
    ensures forall i :: 0 <= i < |r| ==>
              && r[i].id in db.publishers
              && r[i].name == db.publishers[r[i].id].name
              && r[i].bookCount == PublisherBookCount(db.books, r[i].id)
  {
    var ids := PublisherIds(db);
    IncreasingCardinality(ids);
    assert Elems(ids) == db.publishers.Keys;
    Summaries(db, ids)
  }

  /** The summaries of the given publishers, in the given order. */
  function Summaries(db: Db, ids: seq<nat>): (r: seq<PublisherSummary>)
    requires forall k :: k in ids ==> k in db.publishers
    ensures PublisherIdsOf(r) == ids
    ensures forall i :: 0 <= i < |r| ==> r[i] == Summary(db, ids[i])
  {
    var r := seq(|ids|, i requires 0 <= i < |ids| => Summary(db, ids[i]));
    assert PublisherIdsOf(r) == ids;
    r
  }

  /** getPublisherById: the publisher with this key, or NotFound("Publisher", "id", id). */
  function GetPublisherById(db: Db, id: nat): (r: Result<PublisherResponse>)
    requires Consistent(db)
    ensures r.Ok? <==> id in db.publishers
    ensures r.Ok? ==> r.value == PublisherFields(db, id)
    ensures r.Err? ==> r.error == NotFound("Publisher", "id", IdValue(id))
  {
    if id in db.publishers then Ok(PublisherFields(db, id))
    else Err(NotFound("Publisher", "id", IdValue(id)))
  }

  /** getPublisherByName: the publisher holding this name, or NotFound("Publisher", "name", name). */
  function GetPublisherByName(db: Db, name: string): (r: Result<PublisherResponse>)
    requires Consistent(db)
    ensures r.Ok? <==> exists k :: k in db.publishers && db.publishers[k].name == name
    ensures r.Ok? ==> (r.value.id in db.publishers && r.value.name == name
                       && r.value == PublisherFields(db, r.value.id))
    ensures r.Err? ==> r.error == NotFound("Publisher", "name", TextValue(name))
  {
    match FindPublisherByName(db, name)
    case Some(k) => Ok(PublisherFields(db, k))
    case None => Err(NotFound("Publisher", "name", TextValue(name)))
  }

  // ===== conditions the writes check =====

  /** Some stored publisher already holds this name (existsByName). */
  ghost predicate NameTaken(db: Db, name: string) {
    exists k :: k in db.publishers && db.publishers[k].name == name
  }

  /** A publisher other than `id` holds this name. */
  ghost predicate NameOfOther(db: Db, id: nat, name: string) {
    exists k :: k in db.publishers && k != id && db.publishers[k].name == name
  }

  /** The row a create or update stores: all three columns exactly as given. */
  function PublisherRowOf(req: PublisherRequest): PublisherRow
    requires req.name.Some?
  {
    PublisherRow(req.name.value, req.establishedDate, req.address)
  }

  // ===== the transactions =====

  /**
    createPublisher as a transaction: the name check (a null name matches
    nothing), then the NOT NULL name column; on success one publisher under
    the next key.
  */
  function CreatePublisherTx(db: Db, req: PublisherRequest): Tx<PublisherResponse>
    requires KeysIssued(db)
  {
    if req.name.Some? && FindPublisherByName(db, req.name.value).Some? then
      Tx(Err(Duplicate("Publisher", "name", TextValue(req.name.value))), db)
    else if req.name.None? then
      Tx(Err(MissingField("Publisher", "name")), db)
    else
      var id := db.nextPublisherId;
      var after := db.(publishers := db.publishers[id := PublisherRowOf(req)], nextPublisherId := id + 1);
      Tx(Ok(PublisherFields(after, id)), after)
  }

  /**
    updatePublisher as a transaction: NotFound, then the name check that
    ignores the publisher itself, then the NOT NULL name column; on success
    all three columns are replaced.
  */
  function UpdatePublisherTx(db: Db, id: nat, req: PublisherRequest): Tx<PublisherResponse>
    requires KeysIssued(db)
  {
    if id !in db.publishers then
      Tx(Err(NotFound("Publisher", "id", IdValue(id))), db)
    else if req.name.Some? && FindPublisherByName(db, req.name.value).Some?
            && FindPublisherByName(db, req.name.value).value != id then
      Tx(Err(Duplicate("Publisher", "name", TextValue(req.name.value))), db)
    else if req.name.None? then
      Tx(Err(MissingField("Publisher", "name")), db)
    else
      var after := db.(publishers := db.publishers[id := PublisherRowOf(req)]);
      Tx(Ok(PublisherFields(after, id)), after)
  }

  /** deletePublisher as a transaction: NotFound, HasBooks while books reference it, or removed. */
  function DeletePublisherTx(db: Db, id: nat): Tx<()>
  {
    if id !in db.publishers then
      Tx(Err(NotFound("Publisher", "id", IdValue(id))), db)
    else if PublisherBookCount(db.books, id) > 0 then
      Tx(Err(HasBooks(id, PublisherBookCount(db.books, id))), db)
    else
      Tx(Ok(()), db.(publishers := db.publishers - {id}))
  }

  // ===== the store invariant across the writes =====

  /** A row whose name no other row holds can be written under any key without breaking uniqueness. */
  lemma {:induction false} NameUniqueAfterWrite(publishers: map<nat, PublisherRow>, id: nat, row: PublisherRow)
    requires NameUnique(publishers)
    requires forall k :: k in publishers && k != id ==> publishers[k].name != row.name
    ensures NameUnique(publishers[id := row])
  {
    var written := publishers[id := row];
    forall j, k | j in written && k in written && j != k
      ensures written[j].name != written[k].name
    {
      if j != id && k != id {
        assert written[j] == publishers[j] && written[k] == publishers[k];
      }
    }
  }

  /** A publisher with no books is referenced by no book. */
  lemma {:induction false} NoBooksNoReferences(books: map<nat, BookRow>, id: nat)
    requires PublisherBookCount(books, id) == 0
    ensures forall k :: k in books ==> books[k].publisher != Some(id)
  {
    forall k | k in books
      ensures books[k].publisher != Some(id)
    {
      assert books[k].publisher == Some(id) ==> k in BooksOf(books, id);
    }
  }

  lemma CreatePublisherKeepsConsistent(db: Db, req: PublisherRequest)
    requires Consistent(db)
    ensures Consistent(CreatePublisherTx(db, req).db)
  {
    if CreatePublisherTx(db, req).result.Ok? {
      var id := db.nextPublisherId;
      assert id !in db.publishers;
      NameUniqueAfterWrite(db.publishers, id, PublisherRowOf(req));
    }
  }

  lemma UpdatePublisherKeepsConsistent(db: Db, id: nat, req: PublisherRequest)
    requires Consistent(db)
    ensures Consistent(UpdatePublisherTx(db, id, req).db)
  {
    if UpdatePublisherTx(db, id, req).result.Ok? {
      var found := FindPublisherByName(db, req.name.value);
      assert found.Some? ==> found.value == id;
      NameUniqueAfterWrite(db.publishers, id, PublisherRowOf(req));
    }
  }

  lemma DeletePublisherKeepsConsistent(db: Db, id: nat)
    requires Consistent(db)
    ensures Consistent(DeletePublisherTx(db, id).db)
  {
    if DeletePublisherTx(db, id).result.Ok? {
      NoBooksNoReferences(db.books, id);
    }
  }

  // ===== what the transactions guarantee =====

  /** A create whose name is taken fails with Duplicate and changes nothing. */
  lemma CreatePublisherRejectsTakenName(db: Db, req: PublisherRequest)
    requires Consistent(db) && req.name.Some? && NameTaken(db, req.name.value)
    ensures CreatePublisherTx(db, req) == Tx(Err(Duplicate("Publisher", "name", TextValue(req.name.value))), db)
  {
    var k :| k in db.publishers && db.publishers[k].name == req.name.value;
    assert FindPublisherByName(db, req.name.value).Some?;
  }

  /** A create without a name fails on the NOT NULL column and changes nothing. */
  lemma CreatePublisherRequiresName(db: Db, req: PublisherRequest)
    requires Consistent(db) && req.name.None?
    ensures CreatePublisherTx(db, req) == Tx(Err(MissingField("Publisher", "name")), db)
  {
  }

  /**
    A create with a free name adds exactly one publisher, under the next
    key, holding the given name, date and address; the books and details
    are untouched and the response shows the stored row.
  */
  lemma CreatePublisherAddsOne(db: Db, req: PublisherRequest)
    requires Consistent(db) && req.name.Some? && !NameTaken(db, req.name.value)
    ensures var tx := CreatePublisherTx(db, req);
            var id := db.nextPublisherId;
            && tx.result.Ok?
            && id !in db.publishers
            && tx.db.publishers == db.publishers[id := PublisherRow(req.name.value, req.establishedDate, req.address)]
            && |tx.db.publishers| == |db.publishers| + 1
            && tx.db.books == db.books && tx.db.details == db.details
            && tx.result.value == PublisherResponse(id, req.name.value, req.establishedDate, req.address)
  {
    assert FindPublisherByName(db, req.name.value).None?;
    assert db.nextPublisherId !in db.publishers;
  }

  /** A create succeeds exactly when a name is given and no publisher holds it. */
  lemma CreatePublisherSucceedsIff(db: Db, req: PublisherRequest)
    requires Consistent(db)
    ensures CreatePublisherTx(db, req).result.Ok? <==> req.name.Some? && !NameTaken(db, req.name.value)
  {
    if req.name.Some? && NameTaken(db, req.name.value) {
      CreatePublisherRejectsTakenName(db, req);
    } else if req.name.Some? {
      CreatePublisherAddsOne(db, req);
    }
  }

  /** An update of a missing publisher fails with NotFound and changes nothing. */
  lemma UpdatePublisherRejectsMissing(db: Db, id: nat, req: PublisherRequest)
    requires Consistent(db) && id !in db.publishers
    ensures UpdatePublisherTx(db, id, req) == Tx(Err(NotFound("Publisher", "id", IdValue(id))), db)
  {
  }

  /** Renaming to a name a different publisher holds fails with Duplicate and changes nothing. */
  lemma UpdatePublisherRejectsNameOfOther(db: Db, id: nat, req: PublisherRequest)
    requires Consistent(db) && id in db.publishers && req.name.Some? && NameOfOther(db, id, req.name.value)
    ensures UpdatePublisherTx(db, id, req) == Tx(Err(Duplicate("Publisher", "name", TextValue(req.name.value))), db)
  {
    var k :| k in db.publishers && k != id && db.publishers[k].name == req.name.value;
    NameLookupExact(db, req.name.value, k);
  }

  /**
    An update whose name no other publisher holds (its own current name
    included) replaces all three columns as given, nulls included; the
    other publishers, the books and the details are untouched.
  */
  lemma UpdatePublisherReplaces(db: Db, id: nat, req: PublisherRequest)
    requires Consistent(db) && id in db.publishers && req.name.Some? && !NameOfOther(db, id, req.name.value)
    ensures var tx := UpdatePublisherTx(db, id, req);
            && tx.result.Ok?
            && tx.db.publishers == db.publishers[id := PublisherRow(req.name.value, req.establishedDate, req.address)]
            && tx.db.books == db.books && tx.db.details == db.details
            && tx.db.nextPublisherId == db.nextPublisherId
            && tx.result.value == PublisherResponse(id, req.name.value, req.establishedDate, req.address)
  {
    var found := FindPublisherByName(db, req.name.value);
    assert found.Some? ==> found.value == id;
  }

  /** Keeping the publisher's own name is never a duplicate. */
  lemma UpdatePublisherKeepsOwnName(db: Db, id: nat, req: PublisherRequest)
    requires Consistent(db) && id in db.publishers && req.name == Some(db.publishers[id].name)
    ensures UpdatePublisherTx(db, id, req).result.Ok?
  {
    UpdatePublisherReplaces(db, id, req);
  }

  /** An update without a name fails on the NOT NULL column (after NotFound) and changes nothing. */
  lemma UpdatePublisherRequiresName(db: Db, id: nat, req: PublisherRequest)
    requires Consistent(db) && id in db.publishers && req.name.None?
    ensures UpdatePublisherTx(db, id, req) == Tx(Err(MissingField("Publisher", "name")), db)
  {
  }

  /** A delete of a missing publisher fails with NotFound and changes nothing. */
  lemma DeletePublisherRejectsMissing(db: Db, id: nat)
    requires Consistent(db) && id !in db.publishers
    ensures DeletePublisherTx(db, id) == Tx(Err(NotFound("Publisher", "id", IdValue(id))), db)
  {
  }

  /** While some book references the publisher, the delete fails with the live count and changes nothing. */
  lemma DeletePublisherRefusesWhileBooks(db: Db, id: nat, book: nat)
    requires Consistent(db) && id in db.publishers && book in db.books && db.books[book].publisher == Some(id)
    ensures DeletePublisherTx(db, id) == Tx(Err(HasBooks(id, PublisherBookCount(db.books, id))), db)
    ensures PublisherBookCount(db.books, id) >= 1
  {
    assert book in BooksOf(db.books, id);
  }

  /** A publisher no book references is removed, and only it: books and details stay. */
  lemma DeletePublisherRemovesUnused(db: Db, id: nat)
    requires Consistent(db) && id in db.publishers
    requires forall k :: k in db.books ==> db.books[k].publisher != Some(id)
    ensures var tx := DeletePublisherTx(db, id);
            && tx.result.Ok?
            && tx.db.publishers == db.publishers - {id}
            && tx.db.books == db.books && tx.db.details == db.details
            && Consistent(tx.db)
            && GetPublisherById(tx.db, id) == Err(NotFound("Publisher", "id", IdValue(id)))
  {
    assert BooksOf(db.books, id) == {};
    DeletePublisherKeepsConsistent(db, id);
  }

  // ===== the service methods =====

  /** createPublisher: runs the create transaction on the catalog. */
  method CreatePublisher(c: Catalog, req: PublisherRequest) returns (r: Result<PublisherResponse>)
    requires c.Valid()
    modifies c
    ensures c.Valid()
    ensures Tx(r, c.View()) == CreatePublisherTx(old(c.View()), req)
  {
    CreatePublisherKeepsConsistent(c.View(), req);
    if req.name.Some? && FindPublisherByName(c.View(), req.name.value).Some? {
      return Err(Duplicate("Publisher", "name", TextValue(req.name.value)));
    }
    if req.name.None? {
      return Err(MissingField("Publisher", "name"));
    }
    var id := c.nextPublisherId;
    c.publishers := c.publishers[id := PublisherRow(req.name.value, req.establishedDate, req.address)];
    c.nextPublisherId := id + 1;
    r := Ok(PublisherFields(c.View(), id));
  }

  /** updatePublisher: the checks, then the three columns assigned in place. */
  method UpdatePublisher(c: Catalog, id: nat, req: PublisherRequest) returns (r: Result<PublisherResponse>)
    requires c.Valid()
    modifies c
    ensures c.Valid()
    ensures Tx(r, c.View()) == UpdatePublisherTx(old(c.View()), id, req)
  {
    UpdatePublisherKeepsConsistent(c.View(), id, req);
    if id !in c.publishers {
      return Err(NotFound("Publisher", "id", IdValue(id)));
    }
    if req.name.Some? {
      var dup := FindPublisherByName(c.View(), req.name.value);
      if dup.Some? && dup.value != id {
        return Err(Duplicate("Publisher", "name", TextValue(req.name.value)));
      }
    }
    if req.name.None? {
      return Err(MissingField("Publisher", "name"));
    }
    var publisher := c.publishers[id];
    publisher := publisher.(name := req.name.value);
    publisher := publisher.(establishedDate := req.establishedDate);
    publisher := publisher.(address := req.address);
    c.publishers := c.publishers[id := publisher];
    r := Ok(PublisherFields(c.View(), id));
  }

  /** deletePublisher: refuses while books reference the publisher, else removes it. */
  method DeletePublisher(c: Catalog, id: nat) returns (r: Result<()>)
    requires c.Valid()
    modifies c
    ensures c.Valid()
    ensures Tx(r, c.View()) == DeletePublisherTx(old(c.View()), id)
  {
    DeletePublisherKeepsConsistent(c.View(), id);
    if id !in c.publishers {
      return Err(NotFound("Publisher", "id", IdValue(id)));
    }
    var bookCount := PublisherBookCount(c.books, id);
    if bookCount > 0 {
      return Err(HasBooks(id, bookCount));
    }
    c.publishers := c.publishers - {id};
    r := Ok(());
  }
}

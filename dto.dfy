/**
  Request payloads and response projections of the two services. Every
  request field is nullable (None), because the same book payload serves
  both create and partial update. Responses are plain records built from
  the stored rows.
*/
module Dto {
  import opened Common
  import opened Store

  datatype DetailRequest = DetailRequest(
    description: Option<string>,
    language: Option<string>,
    pageCount: Option<int>,
    publisher: Option<string>,
    coverImageUrl: Option<string>,
    edition: Option<string>)

  datatype BookRequest = BookRequest(
    title: Option<string>,
    author: Option<string>,
    isbn: Option<string>,
    price: Option<int>,
    publishDate: Option<Date>,
    publisherId: Option<nat>,
    detail: Option<DetailRequest>)

  datatype PublisherRequest = PublisherRequest(
    name: Option<string>,
    establishedDate: Option<Date>,
    address: Option<string>)

  /** A publisher as shown inside a book response, with its live book count. */
  datatype PublisherSummary = PublisherSummary(id: nat, name: string, bookCount: nat)

  datatype DetailResponse = DetailResponse(
    id: nat,
    description: Option<string>,
    language: Option<string>,
    pageCount: Option<int>,
    publisher: Option<string>,
    coverImageUrl: Option<string>,
    edition: Option<string>)

  datatype BookResponse = BookResponse(
    id: nat,
    title: string,
    author: string,
    isbn: string,
    price: Option<int>,
    publishDate: Option<Date>,
    publisher: Option<PublisherSummary>,
    detail: Option<DetailResponse>)

  datatype PublisherResponse = PublisherResponse(
    id: nat,
    name: string,
    establishedDate: Option<Date>,
    address: Option<string>)

  /** The book's own columns and its detail; the publisher summary is filled in by the service. */
  function BookFields(db: Db, id: nat): BookResponse
    requires id in db.books
  {
    var b := db.books[id];
    var detail :=
      match b.detail
      case Some(d) =>
        if d in db.details then
          var row := db.details[d];
          Some(DetailResponse(d, row.description, row.language, row.pageCount,
                              row.publisher, row.coverImageUrl, row.edition))
        else None
      case None => None;
    BookResponse(id, b.title, b.author, b.isbn, b.price, b.publishDate, None, detail)
  }

  /** The keys of the books in a list of responses, in list order. */
  function BookIdsOf(r: seq<BookResponse>): (ids: seq<nat>)
    ensures |ids| == |r| && forall i :: 0 <= i < |r| ==> ids[i] == r[i].id
  {
    seq(|r|, i requires 0 <= i < |r| => r[i].id)
  }

  /** The keys of the publishers in a list of summaries, in list order. */
  function PublisherIdsOf(r: seq<PublisherSummary>): (ids: seq<nat>)
    ensures |ids| == |r| && forall i :: 0 <= i < |r| ==> ids[i] == r[i].id
  {
    seq(|r|, i requires 0 <= i < |r| => r[i].id)
  }

  function PublisherFields(db: Db, id: nat): PublisherResponse
    requires id in db.publishers
  {
    var p := db.publishers[id];
    PublisherResponse(id, p.name, p.establishedDate, p.address)
  }
}

/**
  The typed failures of the catalog services. The source raises them as one
  exception class carrying an HTTP status and a formatted message; here each
  kind keeps the structured values its message is built from.
*/
module Errors {

  /** The value of the key that was looked up or found duplicated. */
  datatype KeyValue = IdValue(id: nat) | TextValue(text: string)

  datatype Error =
    /** No `kind` record has `key` equal to `value` (HTTP 404). */
    | NotFound(kind: string, key: string, value: KeyValue)
    /** Another `kind` record already has `key` equal to `value` (HTTP 409). */
    | Duplicate(kind: string, key: string, value: KeyValue)
    /** The publisher cannot be deleted: `count` books still reference it (HTTP 409). */
    | HasBooks(publisherId: nat, count: nat)
    /** A required value was null, so the store refused the write. */
    | MissingField(kind: string, field: string)

  datatype Result<+T> = Ok(value: T) | Err(error: Error)
}

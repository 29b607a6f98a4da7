/** The records exchanged with the catalog (server/data/catalog.go; the same
    shapes appear in pkg/data/store.go) and the errors it reports. */
module Catalog {
  import opened Models
  import opened Pagination

  /** `NotNullViolation`: an insert whose title or uri is absent.
      `RecordNotFound`: a lookup by an id no document has. */
  datatype CatalogError = NotNullViolation | RecordNotFound

  datatype InsertDocumentRequest = InsertDocumentRequest(document: Document)

  /** An empty `title` and an empty `tags` list mean "no filter". */
  datatype ListDocumentsRequest = ListDocumentsRequest(title: string, tags: seq<string>, pagination: PaginationRequest)

  datatype ListDocumentsResponse = ListDocumentsResponse(items: seq<Document>, pagination: PaginationResponse)

  datatype GetDocumentRequest = GetDocumentRequest(documentId: int)
}

/** The catalog store (pkg/data/store_db.go): an append-only sequence of
    documents with the next id to assign, answering insert, lookup by id and
    filtered, ordered, paginated listing. */
module Store {
  import opened Wrappers
  import opened Models
  import opened Pagination
  import opened Catalog
  import opened Query

  class DBStore {
    /** The stored documents, in insertion (and id) order. */
    var documents: seq<Document>
    /** The id the next successful insert assigns. */
    var nextId: int

    /** Ids run 1, 2, 3, ... in insertion order, every stored document meets
        the `not null` constraints, and `nextId` follows the last id. */
    ghost predicate Valid()
      reads this
    {
      && nextId == |documents| + 1
      && forall i :: 0 <= i < |documents| ==> documents[i].id == i + 1 && SatisfiesNotNull(documents[i])
    }

    /** A store over a freshly created, empty schema. */
    constructor ()
      ensures Valid() && documents == [] && nextId == 1
    {
      documents := [];
      nextId := 1;
    }

    /** Stores `req.document` under the next id, stamped with the creation
        time `now`, or rejects it with `NotNullViolation` when its title or uri
        is absent, leaving the store unchanged. */
    method InsertDocument(req: InsertDocumentRequest, now: int) returns (err: Option<CatalogError>)
      requires Valid()
      modifies this
      ensures Valid()
      ensures err.Some? <==> !SatisfiesNotNull(req.document)
      ensures err.Some? ==> err.value == NotNullViolation && documents == old(documents) && nextId == old(nextId)
      ensures err.None? ==> documents == old(documents) + [req.document.(id := old(nextId), createTime := now)]
      ensures err.None? ==> GetDocument(GetDocumentRequest(old(nextId))) == Ok(Preloaded(req.document.(id := old(nextId), createTime := now)))
      ensures forall id :: id != old(nextId) ==> GetDocument(GetDocumentRequest(id)) == old(GetDocument(GetDocumentRequest(id)))
    {
      if !SatisfiesNotNull(req.document) {
        return Some(NotNullViolation);
      }
      var stored := req.document.(id := nextId, createTime := now);
      FindAppended(documents, stored);
      forall id | id != stored.id
        ensures FindDocument(documents + [stored], id) == FindDocument(documents, id)
      {
        FindOthersUnchanged(documents, stored, id);
      }
      documents := documents + [stored];
      nextId := nextId + 1;
      err := None;
    }

    /** The stored document with the requested id, with its tags and authors
        but without its kind, or `RecordNotFound`. In a valid store the
        document with id `k` is the `k`-th one inserted. */
    function GetDocument(req: GetDocumentRequest): (r: Result<Document, CatalogError>)
      reads this
      ensures r.Ok? <==> exists i :: 0 <= i < |documents| && documents[i].id == req.documentId
      ensures r.Ok? ==> exists i :: 0 <= i < |documents| && documents[i].id == req.documentId && r.value == Preloaded(documents[i])
      ensures r.Ok? ==> r.value.id == req.documentId && r.value.kind.None?
      ensures r.Err? ==> r.error == RecordNotFound
      ensures Valid() ==> (r.Ok? <==> 1 <= req.documentId <= |documents|)
      ensures Valid() && r.Ok? ==> r.value == Preloaded(documents[req.documentId - 1])
    {
      assert Valid() && 1 <= req.documentId <= |documents| ==> documents[req.documentId - 1].id == req.documentId;
      match FindDocument(documents, req.documentId)
      case Ok(d) =>
        assert d in documents;
        Ok(Preloaded(d))
      case Err(e) => Err(e)
    }

    /** One page of the documents that pass the request's filters, ordered by
        title and read with their tags and authors but without their kind,
        with the number of matches before paging, the requested page echoed
        and the number of pages. */
    function ListDocuments(req: ListDocumentsRequest): (r: ListDocumentsResponse)
      reads this
      requires req.pagination.Valid()
      ensures r.pagination.totalElements == |FilterDocuments(documents, req.title, req.tags)|
      ensures r.pagination.page == req.pagination.page
      ensures r.pagination.pages * req.pagination.pageSize >= r.pagination.totalElements
      ensures r.pagination.pages * req.pagination.pageSize < r.pagination.totalElements + req.pagination.pageSize
      ensures var page := Window(SortByTitle(FilterDocuments(documents, req.title, req.tags)), req.pagination);
        |r.items| == |page| && forall i :: 0 <= i < |page| ==> r.items[i] == Preloaded(page[i])
      ensures |r.items| <= req.pagination.pageSize
      ensures SortedByTitle(r.items)
      ensures forall i :: 0 <= i < |r.items| ==> Matches(r.items[i], req.title, req.tags) && r.items[i].kind.None?
      ensures forall i :: 0 <= i < |r.items| ==> r.items[i] in PreloadAll(documents)
    {
      var matches := FilterDocuments(documents, req.title, req.tags);
      var total := |matches|;
      var items := PreloadAll(Window(SortByTitle(matches), req.pagination));
      PreloadedPageOfMatches(documents, req.title, req.tags, req.pagination);
      ListDocumentsResponse(items, PaginationResponse(total, req.pagination.page, PageCount(total, req.pagination.pageSize)))
    }
  }
}

# Catalog store — a Dafny model

This project models the storage core of a document catalog. The catalog is an
append-only collection of documents. Each document has an optional title, an
optional uri, an optional kind, a list of tags and a list of authors
(name, surname). The store answers three operations:

- **InsertDocument** rejects a document whose title or uri is absent (the
  schema's `not null` constraints). Otherwise it stores the document under the
  next id, starting at 1, stamped with its creation time.
- **GetDocument** returns the document with a given id, tags and authors
  included but the kind not loaded, or a record-not-found error.
- **ListDocuments** keeps the documents that pass a title filter and a tag
  filter. It counts them before paging, orders them by title, and returns the
  page at `Offset() = (Page - 1) * PageSize` of at most `PageSize` items. It
  also returns the total, the requested page and `ceil(total / PageSize)` pages.

The database behind the store is replaced by what each query means over an
in-memory state: the class `Store.DBStore` holds a `seq<Document>` in
insertion order and the `nextId` counter. `InsertDocument` is a method that
changes that state. The two reads are functions over it, built from
specification functions in `Query` and `Pagination`.

Modules, one per concern of the source:

- `Wrappers` — `Option` (a nil pointer) and `Result` (a value or an error).
- `Models` — the entities of `server/data/models.go` and the `not null` predicate.
- `Pagination` — `PaginationRequest.Offset`, the page count and the page window
  (`pkg/data/store.go`, duplicated in `server/data/catalog.go`).
- `Catalog` — the request and response records and the error kinds.
- `Strings` — substring containment and the lexicographic order on titles.
- `Query` — the filters, the order by title, the lookup by id, and the
  joined-rows reading of the tag filter (see Findings).
- `Store` — the `DBStore` class (`pkg/data/store_db.go`).
- `Scenarios` — the listing test of `server/data/catalog_db_test.go`, proved.

Choices where the source leaves the behaviour to the database:

- The title filter is a case-sensitive, contiguous substring match. The source
  uses `LIKE '%term%'`, whose case behaviour depends on the database engine.
- Titles are ordered lexicographically by code point, which is the byte order
  of UTF-8 text. A document without a title would sort first.
- The tag filter is evaluated per document: a document is kept once if at least
  one of its tags is listed. The query as written can return such a document
  more than once; see Findings.
- The entity shapes follow `server/data/models.go` (pointer title and uri). The
  listing algorithm follows `pkg/data/store_db.go`. `server/data/catalog.go`
  declares the same interface and the same `Offset` formula, so one
  definition serves both.

Facts about the program that shape the model's errors, preconditions and reads:

- The program reports a missing title or uri only through the database's
  NOT NULL constraint. The model calls this error `NotNullViolation`.
- The program does not reject a page size of 0. The model requires
  `Page >= 1` and `PageSize > 0` for a listing.
- The reads preload only tags and authors, so a document comes back without
  its kind. The model's reads return every document through `Models.Preloaded`,
  which empties the kind.

## Model

| member | source | states |
|---|---|---|
| `Strings.Contains` | pkg/data/store_db.go:32-34 | the title test holds exactly when the term occurs contiguously at some index of the title |
| `Strings.EmptyTermOccurs` | pkg/data/store_db.go:32 | an empty term is contained in every title, so an empty title filter removes nothing |
| `Strings.FirstCharAbsent` | server/data/catalog_db_test.go:163-173 | a term whose first character is not in the title does not match it |
| `Strings.LexLeReflexive` | pkg/data/store_db.go:48 | every title sorts no later than itself |
| `Strings.LexLeTotal` | pkg/data/store_db.go:48 | any two titles are comparable in the order used by `Order("title")` |
| `Strings.LexLeAntisymmetric` | pkg/data/store_db.go:48 | two titles that each sort no later than the other are equal |
| `Strings.LexLeTransitive` | pkg/data/store_db.go:48 | the title order is transitive |
| `Strings.LexLeCommonPrefix` | server/data/catalog_db_test.go:147-150 | titles sharing a prefix are ordered by what follows it |
| `Models.Preloaded` | pkg/data/store_db.go:68 | a read returns the stored id, title, uri, tags, authors and creation time, and no kind |
| `Models.EmptyDocument` | server/data/catalog_db_test.go:95-104 | the zero `Document{}` has no title and no uri, so it violates the not-null constraints |
| `Pagination.PaginationRequest.Offset` | pkg/data/store.go:33-35 | with `Page >= 1` and `PageSize >= 0` the offset is non-negative; page 1 starts at offset 0 |
| `Pagination.OffsetNextPage` | server/data/catalog.go:32-34 | the next page starts exactly `PageSize` after this one |
| `Pagination.OffsetExamples` | pkg/data/store_test.go:17-32 | page 1 of size 100 starts at 0; page 2 of size 10 starts at 10 |
| `Pagination.DefaultRequest` | pkg/api/catalog.go:55-60 | the default pagination is page 1 of size 100, a valid request starting at offset 0 |
| `Pagination.PageCount` | pkg/data/store_db.go:60 | `pages * size` is at least the total and less than the total plus one page: the integer ceiling of total / size; zero pages iff zero matches |
| `Pagination.Window` | pkg/data/store_db.go:49 | a page holds the items from the offset onward, at most `PageSize` of them, and none when the offset is past the end |
| `Pagination.PagesUpToIsPrefix` | server/data/catalog.go:32-34 | pages 1..k laid end to end are exactly the first `k * PageSize` results |
| `Pagination.PagesTileResult` | pkg/data/store_db.go:48-60 | pages 1..`Pages` laid end to end reproduce the whole ordered result, with no gap and no overlap |
| `Pagination.LastPageBounds` | server/data/catalog.go:32-34 | with matches, the last page starts inside the result and is non-empty; any later page starts past the end and is empty |
| `Pagination.IndexOnPage` | pkg/data/store_db.go:49 | result index i lies on page `i / PageSize + 1`, which is at most `Pages` |
| `Pagination.IndexOnOnePage` | server/data/catalog.go:32-34 | a page whose window holds index i is that page, so no index is on two pages |
| `Query.FilterDocuments` | pkg/data/store_db.go:32-43 | each stored document is kept exactly as often as it is stored when it passes both filters, and dropped otherwise; every kept document is stored and matches |
| `Query.NoFilterKeepsAll` | pkg/data/store_db.go:32-40 | with an empty title and no tags every stored document is listed, in order |
| `Query.TitleFilterKeeps` | pkg/data/store_db.go:32-34 | a non-empty title filter keeps a document iff it is stored and its title contains the term |
| `Query.TagFilterKeeps` | pkg/data/store_db.go:36-40 | a non-empty tag filter keeps a document iff it is stored and one of its tags equals one of the listed texts (OR) |
| `Query.AllMatchKeepsAll` | pkg/data/store_db.go:32-40 | when every document passes the filters the result is the stored sequence |
| `Query.NoneMatchKeepsNone` | pkg/data/store_db.go:32-40 | when no document passes the filters the result is empty |
| `Query.TitleLeTotal` | pkg/data/store_db.go:48 | any two documents are comparable by title |
| `Query.TitleLeTransitive` | pkg/data/store_db.go:48 | the order of documents by title is transitive |
| `Query.InsertByTitle` | pkg/data/store_db.go:48 | placing a document into a title-ordered list keeps it ordered and adds exactly that document |
| `Query.SortByTitle` | pkg/data/store_db.go:48 | the result ordered by title is sorted and a permutation of the matches |
| `Query.SortSortedIsIdentity` | pkg/data/store_db.go:48 | ordering a list already in title order leaves it unchanged |
| `Query.PageOfMatches` | pkg/data/store_db.go:48-52 | the requested page of the ordered matches is in title order, and each document on it is stored and passes the filters |
| `Query.PreloadAll` | pkg/data/store_db.go:30 | the listed documents are read one by one through `Preloaded`, in the same order |
| `Query.PreloadKeepsOrderAndMatches` | pkg/data/store_db.go:30 | leaving out the kind changes neither the title order nor whether a document passes the filters |
| `Query.PreloadedPageOfMatches` | pkg/data/store_db.go:30-52 | the page as read is in title order; each item passes the filters, has no kind and is the read form of a stored document |
| `Query.FindDocument` | pkg/data/store_db.go:66-70 | lookup succeeds iff some stored document has the id, and then returns a stored document with that id; otherwise `RecordNotFound` |
| `Query.FindAppended` | server/data/catalog_db_test.go:214-229 | a document appended under a fresh id is found by that id, exactly as it was stored |
| `Query.FindOthersUnchanged` | pkg/data/store_db.go:22-25 | appending a document does not change what any other id finds |
| `Query.CountListed` | pkg/data/store_db.go:39 | counts the tags of a document whose text is listed; it is positive iff at least one tag is listed |
| `Query.JoinedRows` | pkg/data/store_db.go:36-43 | as written, the tag-filtered query reads only stored documents carrying a listed tag |
| `Query.TagRows` | pkg/data/store_db.go:37-39 | the join yields exactly one copy of a document per listed tag it carries, and nothing else |
| `Query.JoinedRowsPerDocument` | pkg/data/store_db.go:36-52 | as written, each stored document is among the rows (and so in the items and the count) once per stored copy times the number of listed tags it carries |
| `Query.JoinedRowsDuplicateDocument` | pkg/data/store_db.go:36-43 | a document tagged "a" and "b", filtered by ["a", "b"], is read twice by the join but kept once by the per-document filter |
| `Store.DBStore.constructor` | pkg/data/store_db.go:14-16 | a new store holds no documents and will assign id 1 first |
| `Store.DBStore.InsertDocument` | pkg/data/store_db.go:22-25 | rejects iff title or uri is absent, leaving the store unchanged; otherwise appends exactly one document with the next id and the creation time, keeps every older document, makes it retrievable by its id (with tags and authors, without the kind) and changes no other lookup |
| `Store.DBStore.GetDocument` | pkg/data/store_db.go:66-70 | returns the read form (tags and authors, no kind) of a stored document with the requested id, or `RecordNotFound` iff there is none; in a valid store id k is found iff `1 <= k <= count` and names the k-th insert |
| `Store.DBStore.ListDocuments` | pkg/data/store_db.go:27-64 | total counts the matching documents regardless of paging; page is echoed; pages is the ceiling of total / PageSize; items are the read forms (no kind) of the requested window of the matches in title order: at most PageSize, sorted, each passing the filters and read from a stored document |
| `Scenarios.TestDocuments` | server/data/catalog_db_test.go:118-135 | the ten test documents, the i-th titled "Test Title i" |
| `Scenarios.TestDocumentsSorted` | server/data/catalog_db_test.go:147-150 | the test documents are already in title order |
| `Scenarios.TestDocumentsMatch` | server/data/catalog_db_test.go:137-144 | every test document passes title "Test" and tag "book" |
| `Scenarios.ListingFirstPage` | server/data/catalog_db_test.go:137-156 | title "Test", tag "book", page 1 of size 2 gives "Test Title 0" and "Test Title 1", 10 matches and 5 pages |
| `Scenarios.FirstPageOfTestDocuments` | server/data/catalog_db_test.go:147-156 | page 1 of size 2 holds the first two documents; 10 matches make 5 pages |
| `Scenarios.FirstTwoTitles` | server/data/catalog_db_test.go:149-150 | the first two test documents are titled "Test Title 0" and "Test Title 1" and carry tags and authors |
| `Scenarios.FillStore` | server/data/catalog_db_test.go:118-135 | inserting the ten test documents into a new store, without ids, stores exactly them under ids 1 to 10 |
| `Scenarios.StoreFirstPage` | server/data/catalog_db_test.go:137-161 | on the filled store, title "Test", tag "book", page 1 of size 2 lists "Test Title 0" then "Test Title 1", each with tags and authors, with 10 matches, page 1 and 5 pages |
| `Scenarios.StoreTitleMismatch` | server/data/catalog_db_test.go:163-173 | on the filled store, title "Book" lists nothing |
| `Scenarios.StoreSingleTag` | server/data/catalog_db_test.go:175-184 | on the filled store, tag "tag_0" alone lists one item |
| `Scenarios.ListingAgainstStore` | server/data/catalog_db_test.go:118-184 | ten inserts and then the three listings of the test give exactly the results the test asserts |
| `Scenarios.ListingTitleMismatch` | server/data/catalog_db_test.go:163-173 | title "Book" matches none of the test documents |
| `Scenarios.ListingSingleTag` | server/data/catalog_db_test.go:175-184 | tag "tag_0" alone matches exactly one document |

## Left out

- `Init` and schema creation (`AutoMigrate`) are not modelled. The constructor stands for a store over a freshly created, empty schema.
- The ORM and SQL machinery is not modelled: `Preload`, the joins, transactions and context cancellation. Each query is modelled by its meaning over the in-memory sequence.
- Storage failures are not modelled: connectivity loss, a failing count query, and so on. No operation reports a storage error.
- Tag and author rows are not deduplicated by natural key, and no kind row is created. Tags, authors and the kind are values carried by each document.
- The `DocumentKindID` column is not modelled. A read returns no kind at all, so the kind's id that the program does return is not part of the model.
- `Strings.Contains`: `%` and `_` in the term are matched literally. `LIKE` treats them as wildcards. A case-insensitive `LIKE` collation is not modelled either.
- `Query.SortByTitle`: the order among equal titles is insertion order, because the sort is stable. SQL `ORDER BY` does not fix the order of ties, so the model does not claim that the source keeps it.
- `Store.DBStore.ListDocuments`: requires `Page >= 1` and `PageSize > 0`. The source divides by a zero page size in floating point and passes a negative offset or limit to the database; neither behaviour is defined.
- `Pagination.PageCount`: this is exact integer ceiling division. The source's `math.Ceil` over `float64` can round for totals beyond 2^53.
- `Pagination.PaginationRequest.Offset`: integers are unbounded. The 64-bit overflow of `(Page - 1) * PageSize` for huge pages is not modelled.
- `Store.DBStore.InsertDocument`: the creation time is taken as a parameter instead of being read from a clock. Any id the caller supplies is replaced by the next id.
- The HTTP layer is not modelled: routing, query-parameter parsing, JSON and status codes. Only its pagination defaults are kept, in `Pagination.DefaultRequest`.
- The legacy `pkg/data/models.go` (required string title and uri, a `time.Time` publish date) is not modelled. `pkg/data/store_db_test.go`, whose `Search` method does not exist, is not modelled either.
- Concurrency is not modelled. Each operation is one atomic step on the store's state.

## Findings

| source | as written | input that shows it | evidently intended | confidence | as-written member | corrected member |
|---|---|---|---|---|---|---|
| pkg/data/store_db.go:36-43 | the tag filter LEFT JOINs documents with their tag links and keeps rows whose tag is listed, without DISTINCT, so a document appears once per matching tag in both the items and the count | one document tagged "a" and "b", listed with tags ["a", "b"]: two rows, total 2 | each matching document listed and counted once (OR across the tags) | medium, not executed | `Query.JoinedRowsPerDocument`, `Query.JoinedRowsDuplicateDocument` | `Query.FilterDocuments` |

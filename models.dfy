/** The catalog's persisted entities (server/data/models.go): a document with
    an optional title and uri that the schema declares `not null`, an optional
    kind, and many-to-many tags and authors carried as values. */
module Models {
  import opened Wrappers

  datatype DocumentKind = DocumentKind(name: string)

  datatype DocumentTag = DocumentTag(tag: string)

  datatype DocumentAuthor = DocumentAuthor(name: string, surname: string)

  /** A catalog document. `id` and `createTime` are assigned by the store on
      insert; whatever a caller puts there is overwritten. */
  datatype Document = Document(
    id: int,
    title: Option<string>,
    uri: Option<string>,
    kind: Option<DocumentKind>,
    authors: seq<DocumentAuthor>,
    tags: seq<DocumentTag>,
    createTime: int)

  /** The `not null` constraints on `title` and `uri`: only presence is
      required, so a present empty string satisfies them. */
  predicate SatisfiesNotNull(d: Document) {
    d.title.Some? && d.uri.Some?
  }

  /** The zero document `Document{}`: every field absent or empty. */
  function EmptyDocument(): (d: Document)
    ensures !SatisfiesNotNull(d)
    ensures d.kind.None? && d.tags == [] && d.authors == []
  {
    Document(0, None, None, None, [], [], 0)
  }

  /** A stored document as the catalog's reads return it: tags and authors
      are preloaded with it, the kind is not loaded and comes back empty. */
  function Preloaded(d: Document): (r: Document)
    ensures r.kind.None?
    ensures r.id == d.id && r.title == d.title && r.uri == d.uri
    ensures r.tags == d.tags && r.authors == d.authors && r.createTime == d.createTime
  {
    d.(kind := None)
  }
}

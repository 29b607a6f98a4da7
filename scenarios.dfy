/** The listing scenario of the catalog's tests (server/data/catalog_db_test.go):
    ten documents titled "Test Title 0" to "Test Title 9", each tagged "test",
    "book" and its own "tag_i". */
module Scenarios {
  import opened Wrappers
  import opened Strings
  import opened Models
  import opened Pagination
  import opened Catalog
  import opened Query
  import opened Store

  function Digit(i: nat): char
    requires i < 10
  {
    ('0' as int + i) as char
  }

  /** The `i`-th document of the scenario, as stored under id `i + 1`. */
  function TestDocument(i: nat): Document
    requires i < 10
  {
    Document(i + 1, Some("Test Title " + [Digit(i)]), Some(""), None,
      [DocumentAuthor("Author", "")],
      [DocumentTag("test"), DocumentTag("book"), DocumentTag("tag_" + [Digit(i)])], 0)
  }

  function TestDocuments(): (docs: seq<Document>)
    ensures |docs| == 10 && forall i :: 0 <= i < 10 ==> docs[i] == TestDocument(i)
  {
    seq(10, i requires 0 <= i < 10 => TestDocument(i))
  }

  lemma TestDocumentsSorted()
    ensures SortedByTitle(TestDocuments())
  {
    var docs := TestDocuments();
    forall i, j | 0 <= i < j < 10 ensures TitleLe(docs[i], docs[j]) {
      assert LexLe([Digit(i)], [Digit(j)]);
      LexLeCommonPrefix("Test Title ", [Digit(i)], [Digit(j)]);
    }
  }

  /** Title "Test" and tag "book", page 1 of size 2: the first two titles in
      order, out of ten matches on five pages. */
  lemma ListingFirstPage()
    ensures var matches := FilterDocuments(TestDocuments(), "Test", ["book"]);
      && |matches| == 10
      && Window(SortByTitle(matches), PaginationRequest(1, 2)) == [TestDocument(0), TestDocument(1)]
      && PageCount(|matches|, 2) == 5
  {
    TestDocumentsMatch();
    AllMatchKeepsAll(TestDocuments(), "Test", ["book"]);
    TestDocumentsSorted();
    SortSortedIsIdentity(TestDocuments());
    FirstPageOfTestDocuments();
  }

  lemma FirstPageOfTestDocuments()
    ensures Window(TestDocuments(), PaginationRequest(1, 2)) == [TestDocument(0), TestDocument(1)]
    ensures PageCount(10, 2) == 5
  {
  }

  lemma TestDocumentsMatch()
    ensures forall i :: 0 <= i < 10 ==> Matches(TestDocuments()[i], "Test", ["book"])
  {
    var docs := TestDocuments();
    forall i | 0 <= i < 10 ensures Matches(docs[i], "Test", ["book"]) {
      var t := docs[i].title.value;
      assert t[..4] == "Test";
      assert OccursAt("Test", t, 0);
      assert docs[i].tags[1].tag in ["book"];
    }
  }

  /** Title "Book" matches none of the titles. */
  lemma ListingTitleMismatch()
    ensures FilterDocuments(TestDocuments(), "Book", ["book"]) == []
  {
    var docs := TestDocuments();
    forall i | 0 <= i < 10 ensures !Matches(docs[i], "Book", ["book"]) {
      assert 'B' !in docs[i].title.value;
      FirstCharAbsent(docs[i].title.value, "Book");
    }
    NoneMatchKeepsNone(docs, "Book", ["book"]);
  }

  /** Tag "tag_0" alone matches exactly one document. */
  lemma ListingSingleTag()
    ensures FilterDocuments(TestDocuments(), "", ["tag_0"]) == [TestDocument(0)]
  {
    var docs := TestDocuments();
    assert Matches(docs[0], "", ["tag_0"]) by {
      assert Digit(0) == '0';
      assert docs[0].tags[2].tag == "tag_0";
    }
    forall i | 1 <= i < 10 ensures !Matches(docs[i], "", ["tag_0"]) {
      assert docs[i].tags[2].tag[4] != '0';
    }
    NoneMatchKeepsNone(docs[1..], "", ["tag_0"]);
    assert docs == [docs[0]] + docs[1..];
  }

  /** The test's setup: a new store receives the ten documents, each
      inserted without an id; each insert succeeds and is stored under the
      next id. */
  method FillStore() returns (store: DBStore)
    ensures fresh(store) && store.Valid() && store.documents == TestDocuments()
  {
    store := new DBStore();
    var i := 0;
    while i < 10
      invariant 0 <= i <= 10
      invariant store.Valid() && store.documents == TestDocuments()[..i]
    {
      var err := store.InsertDocument(InsertDocumentRequest(TestDocument(i).(id := 0)), 0);
      assert err.None?;
      assert TestDocuments()[..i + 1] == TestDocuments()[..i] + [TestDocument(i)];
      i := i + 1;
    }
    assert TestDocuments()[..10] == TestDocuments();
  }

  /** Title "Test", tag "book", page 1 of size 2 on the filled store: two
      items, "Test Title 0" then "Test Title 1", each with tags and authors;
      10 matches, page 1, 5 pages. */
  lemma StoreFirstPage(store: DBStore)
    requires store.documents == TestDocuments()
    ensures var r := store.ListDocuments(ListDocumentsRequest("Test", ["book"], PaginationRequest(1, 2)));
      && |r.items| == 2
      && r.items[0].title == Some("Test Title 0") && r.items[1].title == Some("Test Title 1")
      && r.items[0].tags != [] && r.items[0].authors != []
      && r.items[1].tags != [] && r.items[1].authors != []
      && r.pagination == PaginationResponse(10, 1, 5)
  {
    ListingFirstPage();
    FirstTwoTitles();
    var req := ListDocumentsRequest("Test", ["book"], PaginationRequest(1, 2));
    var page := Window(SortByTitle(FilterDocuments(TestDocuments(), "Test", ["book"])), req.pagination);
    assert page == [TestDocument(0), TestDocument(1)];
    var r := store.ListDocuments(req);
    assert |r.items| == 2;
    assert r.items[0] == Preloaded(page[0]) && r.items[1] == Preloaded(page[1]);
    assert r.pagination.totalElements == 10;
    assert r.pagination.pages * 2 >= 10 && r.pagination.pages * 2 < 12;
  }

  lemma FirstTwoTitles()
    ensures TestDocument(0).title == Some("Test Title 0") && TestDocument(1).title == Some("Test Title 1")
    ensures TestDocument(0).tags != [] && TestDocument(0).authors != []
    ensures TestDocument(1).tags != [] && TestDocument(1).authors != []
  {
    assert Digit(0) == '0' && Digit(1) == '1';
    assert "Test Title " + ['0'] == "Test Title 0";
    assert "Test Title " + ['1'] == "Test Title 1";
  }

  /** Title "Book" on the filled store lists nothing. */
  lemma StoreTitleMismatch(store: DBStore)
    requires store.documents == TestDocuments()
    ensures store.ListDocuments(ListDocumentsRequest("Book", ["book"], PaginationRequest(1, 2))).items == []
  {
    ListingTitleMismatch();
  }

  /** Tag "tag_0" alone, page 1 of size 10, on the filled store lists one item. */
  lemma StoreSingleTag(store: DBStore)
    requires store.documents == TestDocuments()
    ensures |store.ListDocuments(ListDocumentsRequest("", ["tag_0"], PaginationRequest(1, 10))).items| == 1
  {
    ListingSingleTag();
    var req := ListDocumentsRequest("", ["tag_0"], PaginationRequest(1, 10));
    var matches := FilterDocuments(TestDocuments(), "", ["tag_0"]);
    assert matches == [TestDocument(0)];
    assert SortByTitle(matches) == [TestDocument(0)];
    var page := Window(SortByTitle(matches), req.pagination);
    assert |page| == 1;
    assert |store.ListDocuments(req).items| == |page|;
  }

  /** The listing test run against the store itself: ten inserts, then the
      three listings and what the test asserts of each. */
  method ListingAgainstStore() returns (first: ListDocumentsResponse, byBook: ListDocumentsResponse, byTag: ListDocumentsResponse)
    ensures |first.items| == 2
    ensures first.items[0].title == Some("Test Title 0") && first.items[1].title == Some("Test Title 1")
    ensures first.pagination == PaginationResponse(10, 1, 5)
    ensures first.items[0].tags != [] && first.items[0].authors != []
    ensures first.items[1].tags != [] && first.items[1].authors != []
    ensures byBook.items == []
    ensures |byTag.items| == 1
  {
    var store := FillStore();
    StoreFirstPage(store);
    StoreTitleMismatch(store);
    StoreSingleTag(store);
    first := store.ListDocuments(ListDocumentsRequest("Test", ["book"], PaginationRequest(1, 2)));
    byBook := store.ListDocuments(ListDocumentsRequest("Book", ["book"], PaginationRequest(1, 2)));
    byTag := store.ListDocuments(ListDocumentsRequest("", ["tag_0"], PaginationRequest(1, 10)));
  }
}

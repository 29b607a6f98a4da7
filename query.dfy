/** The meaning of the catalog's queries over its stored documents: the title
    and tag filters, the order by title, and the lookup by id. */
module Query {
  import opened Wrappers
  import opened Strings
  import opened Models
  import opened Catalog
  import opened Pagination

  /** The title filter: an empty term keeps everything; otherwise the
      document's title must contain the term, case-sensitively and
      contiguously. An absent title never matches a non-empty term. */
  predicate MatchesTitle(d: Document, term: string) {
    |term| == 0 || (d.title.Some? && Contains(d.title.value, term))
  }

  /** At least one of the document's tags has a text in `tags`. */
  predicate HasTagIn(d: Document, tags: seq<string>) {
    exists i :: 0 <= i < |d.tags| && d.tags[i].tag in tags
  }

  /** The tag filter: an empty list keeps everything; otherwise one matching
      tag suffices (OR across the list). */
  predicate MatchesTags(d: Document, tags: seq<string>) {
    |tags| == 0 || HasTagIn(d, tags)
  }

  /** Both filters of a listing request. */
  predicate Matches(d: Document, title: string, tags: seq<string>) {
    MatchesTitle(d, title) && MatchesTags(d, tags)
  }

  /** The documents that pass both filters, each exactly as often as it is
      stored: this is the set the listing counts and pages through. */
  function FilterDocuments(docs: seq<Document>, title: string, tags: seq<string>): (r: seq<Document>)
    ensures forall d :: multiset(r)[d] == if Matches(d, title, tags) then multiset(docs)[d] else 0
    ensures forall i :: 0 <= i < |r| ==> Matches(r[i], title, tags) && r[i] in docs
  {
    if docs == [] then []
    else
      var rest := FilterDocuments(docs[1..], title, tags);
      assert docs == [docs[0]] + docs[1..];
      if Matches(docs[0], title, tags) then [docs[0]] + rest else rest
  }

  /** With neither filter, the listing covers every stored document in order. */
  lemma {:induction false} NoFilterKeepsAll(docs: seq<Document>)
    ensures FilterDocuments(docs, "", []) == docs
  {
    if docs != [] {
      NoFilterKeepsAll(docs[1..]);
      assert docs == [docs[0]] + docs[1..];
    }
  }

  /** A non-empty title filter keeps exactly the stored documents whose title
      contains the term. */
  lemma TitleFilterKeeps(docs: seq<Document>, term: string, d: Document)
    requires |term| > 0
    ensures d in FilterDocuments(docs, term, []) <==>
      d in docs && d.title.Some? && exists i :: OccursAt(term, d.title.value, i)
  {
  }

  /** A non-empty tag filter keeps exactly the stored documents that carry at
      least one of the listed tags. */
  lemma TagFilterKeeps(docs: seq<Document>, tags: seq<string>, d: Document)
    requires |tags| > 0
    ensures d in FilterDocuments(docs, "", tags) <==>
      d in docs && exists i, j :: 0 <= i < |d.tags| && 0 <= j < |tags| && d.tags[i].tag == tags[j]
  {
  }

  /** Results are ordered by title; documents without a title sort first. */
  predicate TitleLe(a: Document, b: Document) {
    a.title.None? || (b.title.Some? && LexLe(a.title.value, b.title.value))
  }

  lemma TitleLeTotal(a: Document, b: Document)
    ensures TitleLe(a, b) || TitleLe(b, a)
  {
    if a.title.Some? && b.title.Some? {
      LexLeTotal(a.title.value, b.title.value);
    }
  }

  lemma TitleLeTransitive(a: Document, b: Document, c: Document)
    requires TitleLe(a, b) && TitleLe(b, c)
    ensures TitleLe(a, c)
  {
    if a.title.Some? {
      LexLeTransitive(a.title.value, b.title.value, c.title.value);
    }
  }

  predicate SortedByTitle(s: seq<Document>) {
    forall i, j :: 0 <= i < j < |s| ==> TitleLe(s[i], s[j])
  }

  /** A document that sorts no later than every document of a sorted list
      can be put in front of it. */
  lemma SortedCons(a: Document, s: seq<Document>)
    requires SortedByTitle(s)
    requires forall j :: 0 <= j < |s| ==> TitleLe(a, s[j])
    ensures SortedByTitle([a] + s)
  {
  }

  /** Every document of `t` sorts no earlier than `a` when every element of
      its multiset does. */
  lemma LowerBoundByMultiset(a: Document, t: seq<Document>, m: multiset<Document>)
    requires multiset(t) == m
    requires forall x :: x in m ==> TitleLe(a, x)
    ensures forall j :: 0 <= j < |t| ==> TitleLe(a, t[j])
  {
  }

  /** Places `d` into the sorted `s`, before the first document whose title is
      not smaller than its own. */
  function InsertByTitle(d: Document, s: seq<Document>): (r: seq<Document>)
    requires SortedByTitle(s)
    ensures SortedByTitle(r)
    ensures multiset(r) == multiset(s) + multiset{d}
    ensures |r| == |s| + 1
  {
    if s == [] then [d]
    else if TitleLe(d, s[0]) then
      assert forall j :: 0 <= j < |s| ==> TitleLe(d, s[j]) by {
        forall j | 0 <= j < |s| ensures TitleLe(d, s[j]) {
          if j > 0 { TitleLeTransitive(d, s[0], s[j]); }
        }
      }
      SortedCons(d, s);
      [d] + s
    else
      var rest := InsertByTitle(d, s[1..]);
      assert s == [s[0]] + s[1..];
      TitleLeTotal(d, s[0]);
      assert forall x :: x in multiset(s[1..]) ==> TitleLe(s[0], x) by {
        forall x | x in multiset(s[1..]) ensures TitleLe(s[0], x) {
          var j :| 0 <= j < |s[1..]| && s[1..][j] == x;
          assert s[j + 1] == x;
        }
      }
      LowerBoundByMultiset(s[0], rest, multiset(s[1..]) + multiset{d});
      SortedCons(s[0], rest);
      [s[0]] + rest
  }

  /** The listing's `ORDER BY title`: a sorted permutation of its input. */
  function SortByTitle(s: seq<Document>): (r: seq<Document>)
    ensures SortedByTitle(r)
    ensures multiset(r) == multiset(s)
    ensures |r| == |s|
  {
    if s == [] then []
    else
      assert s == [s[0]] + s[1..];
      InsertByTitle(s[0], SortByTitle(s[1..]))
  }

  /** Ordering a result that is already in title order leaves it as it is. */
  lemma {:induction false} SortSortedIsIdentity(s: seq<Document>)
    requires SortedByTitle(s)
    ensures SortByTitle(s) == s
  {
    if s != [] {
      SortSortedIsIdentity(s[1..]);
      assert s == [s[0]] + s[1..];
      if |s| > 1 {
        assert TitleLe(s[0], s[1]);
      }
    }
  }

  /** When every stored document passes the filters, all are kept, in order. */
  lemma {:induction false} AllMatchKeepsAll(docs: seq<Document>, title: string, tags: seq<string>)
    requires forall i :: 0 <= i < |docs| ==> Matches(docs[i], title, tags)
    ensures FilterDocuments(docs, title, tags) == docs
  {
    if docs != [] {
      AllMatchKeepsAll(docs[1..], title, tags);
      assert docs == [docs[0]] + docs[1..];
    }
  }

  /** When no stored document passes the filters, the result is empty. */
  lemma NoneMatchKeepsNone(docs: seq<Document>, title: string, tags: seq<string>)
    requires forall i :: 0 <= i < |docs| ==> !Matches(docs[i], title, tags)
    ensures FilterDocuments(docs, title, tags) == []
  {
  }

  /** A page of the ordered matches is itself in title order, and every
      document on it is stored and passes the filters. */
  lemma PageOfMatches(docs: seq<Document>, title: string, tags: seq<string>, p: PaginationRequest)
    requires p.Valid()
    ensures var page := Window(SortByTitle(FilterDocuments(docs, title, tags)), p);
      && SortedByTitle(page)
      && forall i :: 0 <= i < |page| ==> page[i] in docs && Matches(page[i], title, tags)
  {
    var matches := FilterDocuments(docs, title, tags);
    var ordered := SortByTitle(matches);
    var page := Window(ordered, p);
    forall i | 0 <= i < |page| ensures page[i] in docs && Matches(page[i], title, tags) {
      assert page[i] == ordered[p.Offset() + i];
      assert page[i] in multiset(ordered);
      assert page[i] in multiset(matches);
    }
  }

  /** The documents of `s` as a read returns them. */
  function PreloadAll(s: seq<Document>): (r: seq<Document>)
    ensures |r| == |s| && forall i :: 0 <= i < |s| ==> r[i] == Preloaded(s[i])
  {
    seq(|s|, i requires 0 <= i < |s| => Preloaded(s[i]))
  }

  /** Leaving out the kind changes neither the title order nor the filters'
      verdicts. */
  lemma PreloadKeepsOrderAndMatches(s: seq<Document>, title: string, tags: seq<string>)
    requires SortedByTitle(s)
    ensures SortedByTitle(PreloadAll(s))
    ensures forall i :: 0 <= i < |s| ==> (Matches(PreloadAll(s)[i], title, tags) <==> Matches(s[i], title, tags))
  {
  }

  /** The page a listing returns, read without kinds: in title order, every
      item passes the filters and is the read form of a stored document. */
  lemma PreloadedPageOfMatches(docs: seq<Document>, title: string, tags: seq<string>, p: PaginationRequest)
    requires p.Valid()
    ensures var items := PreloadAll(Window(SortByTitle(FilterDocuments(docs, title, tags)), p));
      && SortedByTitle(items)
      && forall i :: 0 <= i < |items| ==> Matches(items[i], title, tags) && items[i].kind.None? && items[i] in PreloadAll(docs)
  {
    var page := Window(SortByTitle(FilterDocuments(docs, title, tags)), p);
    var items := PreloadAll(page);
    PageOfMatches(docs, title, tags, p);
    PreloadKeepsOrderAndMatches(page, title, tags);
    forall i | 0 <= i < |items| ensures items[i] in PreloadAll(docs) {
      var j :| 0 <= j < |docs| && docs[j] == page[i];
      assert PreloadAll(docs)[j] == items[i];
    }
  }

  /** The lookup by primary key: the first stored document with that id, or
      `RecordNotFound`. */
  function FindDocument(docs: seq<Document>, id: int): (r: Result<Document, CatalogError>)
    ensures r.Ok? <==> exists i :: 0 <= i < |docs| && docs[i].id == id
    ensures r.Ok? ==> r.value in docs && r.value.id == id
    ensures r.Err? ==> r.error == RecordNotFound
  {
    if docs == [] then Err(RecordNotFound)
    else if docs[0].id == id then Ok(docs[0])
    else
      var r := FindDocument(docs[1..], id);
      assert forall i :: 1 <= i < |docs| ==> docs[i] == docs[1..][i - 1];
      r
  }

  /** A document appended under an id no stored document has is found by
      that id. */
  lemma {:induction false} FindAppended(docs: seq<Document>, d: Document)
    requires forall i :: 0 <= i < |docs| ==> docs[i].id != d.id
    ensures FindDocument(docs + [d], d.id) == Ok(d)
  {
    if docs != [] {
      FindAppended(docs[1..], d);
      assert (docs + [d])[1..] == docs[1..] + [d];
    }
  }

  /** Appending a document does not change what any other id finds. */
  lemma {:induction false} FindOthersUnchanged(docs: seq<Document>, d: Document, id: int)
    requires id != d.id
    ensures FindDocument(docs + [d], id) == FindDocument(docs, id)
  {
    if docs == [] {
      assert FindDocument([d], id) == FindDocument([d][1..], id);
    } else {
      FindOthersUnchanged(docs[1..], d, id);
      assert (docs + [d])[1..] == docs[1..] + [d];
    }
  }

  /** How many entries of `ts` have a text in `tags`. */
  function CountListed(ts: seq<DocumentTag>, tags: seq<string>): (n: nat)
    ensures n <= |ts|
    ensures n > 0 <==> exists i :: 0 <= i < |ts| && ts[i].tag in tags
  {
    if ts == [] then 0
    else
      var rest := CountListed(ts[1..], tags);
      assert forall i :: 1 <= i < |ts| ==> ts[i] == ts[1..][i - 1];
      (if ts[0].tag in tags then 1 else 0) + rest
  }

  /** The rows the tag-filtered query reads as written: each document joined
      with its tag links, keeping one row per tag whose text is listed. With no
      DISTINCT, a stored document appears once per listed tag it carries, both
      among the items and in the count. */
  function JoinedRows(docs: seq<Document>, tags: seq<string>): (r: seq<Document>)
    ensures forall i :: 0 <= i < |r| ==> r[i] in docs && HasTagIn(r[i], tags)
  {
    if docs == [] then []
    else TagRows(docs[0], docs[0].tags, tags) + JoinedRows(docs[1..], tags)
  }

  /** As written, the joined query returns (and counts) each stored document
      once for every listed tag it carries. */
  lemma {:induction false} JoinedRowsPerDocument(docs: seq<Document>, tags: seq<string>, d: Document)
    ensures multiset(JoinedRows(docs, tags))[d] == multiset(docs)[d] * CountListed(d.tags, tags)
  {
    var c := CountListed(d.tags, tags);
    if docs == [] {
      assert multiset(docs)[d] == 0;
    } else {
      JoinedRowsPerDocument(docs[1..], tags, d);
      var rows := TagRows(docs[0], docs[0].tags, tags);
      var rest := JoinedRows(docs[1..], tags);
      assert docs == [docs[0]] + docs[1..];
      assert JoinedRows(docs, tags) == rows + rest;
      var m := multiset(docs[1..])[d];
      assert multiset(rest)[d] == m * c;
      if d == docs[0] {
        assert multiset(rows)[d] == c;
        assert multiset(docs)[d] == m + 1;
        SuccTimes(m, c);
      } else {
        assert multiset(rows)[d] == 0;
        assert multiset(docs)[d] == m;
      }
    }
  }

  lemma SuccTimes(m: nat, c: nat)
    ensures (m + 1) * c == m * c + c
  {
  }

  /** One copy of `d` per entry of `ts` (a suffix of `d.tags`) whose text is
      listed. */
  function TagRows(d: Document, ts: seq<DocumentTag>, tags: seq<string>): (r: seq<Document>)
    requires |ts| <= |d.tags| && ts == d.tags[|d.tags| - |ts|..]
    ensures |r| == CountListed(ts, tags)
    ensures forall i :: 0 <= i < |r| ==> r[i] == d
    ensures forall x :: multiset(r)[x] == if x == d then |r| else 0
    ensures r != [] ==> HasTagIn(d, tags)
    decreases |ts|
  {
    if ts == [] then []
    else
      var rest := TagRows(d, ts[1..], tags);
      if ts[0].tag in tags then
        assert d.tags[|d.tags| - |ts|].tag in tags;
        [d] + rest
      else rest
  }

  /** A document tagged "a" and "b", listed with the filter ["a", "b"]: the
      joined query reads it twice, so it would be returned and counted twice,
      while the per-document filter keeps it once. */
  lemma JoinedRowsDuplicateDocument()
    ensures var d := Document(1, Some("Report"), Some(""), None, [], [DocumentTag("a"), DocumentTag("b")], 0);
      JoinedRows([d], ["a", "b"]) == [d, d] && FilterDocuments([d], "", ["a", "b"]) == [d]
  {
  }
}

/** The helpers of the handlers: the unique-author merge that every page of a
    bookcount query feeds, and the two per-request lookups of the readership
    query, each with its upstream fetch given as a value. */
module Helpers {
  import opened Structs
  import opened Http
  import opened Text
  import opened Constants

  // ---------------------------------------------------------------------
  // Unique-author merge: specification
  // ---------------------------------------------------------------------

  /** The authors of a page's books, book by book, in the order the merge
      visits them. */
  function PageAuthors(books: seq<Book>): seq<Author>
  {
    if books == [] then [] else books[0].authors + PageAuthors(books[1..])
  }

  /** The authors a fetched page contributes; a failed fetch contributes none. */
  function PageOf(page: Fetch<GutendexResponse>): seq<Author>
  {
    if page.Got? then PageAuthors(page.value.results) else []
  }

  function Elems(s: seq<Author>): set<Author>
  {
    set a | a in s
  }

  predicate NoDuplicates(s: seq<Author>)
  {
    forall i, j :: 0 <= i < j < |s| ==> s[i] != s[j]
  }

  /** One membership check and append, done under the lock. */
  function Insert(list: seq<Author>, a: Author): seq<Author>
  {
    if a in list then list else list + [a]
  }

  /** Feeding the authors `xs` one by one into `list`. */
  function Merge(list: seq<Author>, xs: seq<Author>): seq<Author>
    decreases |xs|
  {
    if xs == [] then list else Merge(Insert(list, xs[0]), xs[1..])
  }

  /** The list after one page has been merged into it. */
  function MergePage(list: seq<Author>, page: Fetch<GutendexResponse>): seq<Author>
  {
    Merge(list, PageOf(page))
  }

  /** The list after the pages have been merged into it one after the other. */
  function MergePages(list: seq<Author>, pages: seq<Fetch<GutendexResponse>>): seq<Author>
  {
    if pages == [] then list
    else MergePage(MergePages(list, pages[..|pages| - 1]), pages[|pages| - 1])
  }

  /** Merging one page more extends the fold over a prefix by one step. */
  lemma MergePagesStep(list: seq<Author>, pages: seq<Fetch<GutendexResponse>>, n: nat)
    requires n < |pages|
    ensures MergePages(list, pages[..n + 1]) == MergePage(MergePages(list, pages[..n]), pages[n])
  {
    assert pages[..n + 1][..n] == pages[..n];
  }

  /** Reference definition: the distinct authors of all fetched pages. */
  function AuthorSet(pages: seq<Fetch<GutendexResponse>>): set<Author>
  {
    if pages == [] then {}
    else AuthorSet(pages[..|pages| - 1]) + Elems(PageOf(pages[|pages| - 1]))
  }

  // ---------------------------------------------------------------------
  // Unique-author merge: properties
  // ---------------------------------------------------------------------

  lemma {:induction false} PageAuthorsMembers(books: seq<Book>)
    ensures forall a :: a in PageAuthors(books) <==> exists b :: b in books && a in b.authors
  {
    if books != [] {
      PageAuthorsMembers(books[1..]);
      forall a ensures a in PageAuthors(books) <==> exists b :: b in books && a in b.authors {
        if a in books[0].authors {
          assert books[0] in books;
        }
        if b :| b in books && a in b.authors {
          if b != books[0] {
            assert b in books[1..];
          }
        }
      }
    }
  }

  /** Merging a concatenation is merging one part after the other. */
  lemma {:induction false} MergeAppend(list: seq<Author>, xs: seq<Author>, ys: seq<Author>)
    ensures Merge(list, xs + ys) == Merge(Merge(list, xs), ys)
    decreases |xs|
  {
    if xs == [] {
      assert xs + ys == ys;
    } else {
      assert (xs + ys)[0] == xs[0];
      assert (xs + ys)[1..] == xs[1..] + ys;
      MergeAppend(Insert(list, xs[0]), xs[1..], ys);
    }
  }

  /** The merge only appends: the old list is a prefix of the new one. */
  lemma {:induction false} MergeExtends(list: seq<Author>, xs: seq<Author>)
    ensures |list| <= |Merge(list, xs)| && Merge(list, xs)[..|list|] == list
    decreases |xs|
  {
    if xs != [] {
      var next := Insert(list, xs[0]);
      MergeExtends(next, xs[1..]);
      assert next[..|list|] == list;
      assert Merge(list, xs)[..|list|] == Merge(list, xs)[..|next|][..|list|];
    }
  }

  /** The merged list holds exactly the old authors and the new ones. */
  lemma {:induction false} MergeElems(list: seq<Author>, xs: seq<Author>)
    ensures Elems(Merge(list, xs)) == Elems(list) + Elems(xs)
    decreases |xs|
  {
    if xs != [] {
      MergeElems(Insert(list, xs[0]), xs[1..]);
      assert Elems(Insert(list, xs[0])) == Elems(list) + {xs[0]};
      assert xs == [xs[0]] + xs[1..];
      assert Elems(xs) == {xs[0]} + Elems(xs[1..]);
    }
  }

  /** A duplicate-free list stays duplicate-free. */
  lemma {:induction false} MergeNoDuplicates(list: seq<Author>, xs: seq<Author>)
    requires NoDuplicates(list)
    ensures NoDuplicates(Merge(list, xs))
    decreases |xs|
  {
    if xs != [] {
      MergeNoDuplicates(Insert(list, xs[0]), xs[1..]);
    }
  }

  /** Merging authors the list already holds changes nothing. */
  lemma {:induction false} MergeKnown(list: seq<Author>, xs: seq<Author>)
    requires forall i :: 0 <= i < |xs| ==> xs[i] in list
    ensures Merge(list, xs) == list
    decreases |xs|
  {
    if xs != [] {
      MergeKnown(list, xs[1..]);
    }
  }

  /** Merging the same authors a second time changes nothing. */
  lemma MergeIdempotent(list: seq<Author>, xs: seq<Author>)
    ensures Merge(Merge(list, xs), xs) == Merge(list, xs)
  {
    MergeElems(list, xs);
    forall i | 0 <= i < |xs| ensures xs[i] in Merge(list, xs) {
      assert xs[i] in Elems(xs);
      assert xs[i] in Elems(Merge(list, xs));
    }
    MergeKnown(Merge(list, xs), xs);
  }

  /** A duplicate-free list has as many elements as distinct values. */
  lemma {:induction false} DistinctCount(s: seq<Author>)
    requires NoDuplicates(s)
    ensures |Elems(s)| == |s|
  {
    if s != [] {
      var init := s[..|s| - 1];
      DistinctCount(init);
      assert s == init + [s[|s| - 1]];
      assert Elems(s) == Elems(init) + {s[|s| - 1]};
      assert s[|s| - 1] !in Elems(init);
    }
  }

  /** From an empty list, the merge yields each distinct author once. */
  lemma MergeFromEmpty(xs: seq<Author>)
    ensures Elems(Merge([], xs)) == Elems(xs)
    ensures NoDuplicates(Merge([], xs))
    ensures |Merge([], xs)| == |Elems(xs)|
  {
    MergeElems([], xs);
    MergeNoDuplicates([], xs);
    DistinctCount(Merge([], xs));
  }

  /** Any two author streams with the same authors, in whatever order and
      interleaving, merge into lists with the same elements and length. */
  lemma MergeOrderIndependent(xs: seq<Author>, ys: seq<Author>)
    requires Elems(xs) == Elems(ys)
    ensures Elems(Merge([], xs)) == Elems(Merge([], ys))
    ensures |Merge([], xs)| == |Merge([], ys)|
  {
    MergeFromEmpty(xs);
    MergeFromEmpty(ys);
  }

  /** What merging one page does to the shared list. */
  lemma MergePageSpec(list: seq<Author>, page: Fetch<GutendexResponse>)
    ensures |list| <= |MergePage(list, page)| && MergePage(list, page)[..|list|] == list
    ensures forall a :: a in MergePage(list, page) <==>
      a in list || (page.Got? && exists b :: b in page.value.results && a in b.authors)
    ensures NoDuplicates(list) ==> NoDuplicates(MergePage(list, page))
    ensures page.Failed? ==> MergePage(list, page) == list
  {
    MergeExtends(list, PageOf(page));
    MergeElems(list, PageOf(page));
    if page.Got? {
      PageAuthorsMembers(page.value.results);
    }
    forall a ensures a in MergePage(list, page) <==> a in Elems(list) + Elems(PageOf(page)) {
      assert a in MergePage(list, page) <==> a in Elems(MergePage(list, page));
    }
    if NoDuplicates(list) {
      MergeNoDuplicates(list, PageOf(page));
    }
  }

  /** Merging the same page a second time changes nothing. */
  lemma MergePageTwice(list: seq<Author>, page: Fetch<GutendexResponse>)
    ensures MergePage(MergePage(list, page), page) == MergePage(list, page)
  {
    MergeIdempotent(list, PageOf(page));
  }

  /** Merging pages keeps the list duplicate-free and adds exactly the
      authors of the fetched pages. */
  lemma {:induction false} MergePagesElems(list: seq<Author>, pages: seq<Fetch<GutendexResponse>>)
    ensures Elems(MergePages(list, pages)) == Elems(list) + AuthorSet(pages)
    ensures NoDuplicates(list) ==> NoDuplicates(MergePages(list, pages))
  {
    if pages != [] {
      var init := pages[..|pages| - 1];
      MergePagesElems(list, init);
      MergeElems(MergePages(list, init), PageOf(pages[|pages| - 1]));
      if NoDuplicates(list) {
        MergeNoDuplicates(MergePages(list, init), PageOf(pages[|pages| - 1]));
      }
    }
  }

  /** From an empty list, the final length is the number of distinct authors
      across all fetched pages. */
  lemma MergePagesCount(pages: seq<Fetch<GutendexResponse>>)
    ensures |MergePages([], pages)| == |AuthorSet(pages)|
  {
    MergePagesElems([], pages);
    DistinctCount(MergePages([], pages));
  }

  /** Every author of a fetched page is in the reference set. */
  lemma {:induction false} AuthorSetHas(pages: seq<Fetch<GutendexResponse>>, i: nat, a: Author)
    requires i < |pages| && a in PageOf(pages[i])
    ensures a in AuthorSet(pages)
  {
    var init := pages[..|pages| - 1];
    if i < |pages| - 1 {
      assert init[i] == pages[i];
      AuthorSetHas(init, i, a);
    } else {
      assert a in Elems(PageOf(pages[i]));
    }
  }

  /** Every author of the reference set comes from some fetched page. */
  lemma {:induction false} AuthorSetFrom(pages: seq<Fetch<GutendexResponse>>, a: Author)
    requires a in AuthorSet(pages)
    ensures exists i :: 0 <= i < |pages| && a in PageOf(pages[i])
  {
    var init := pages[..|pages| - 1];
    if a in AuthorSet(init) {
      AuthorSetFrom(init, a);
      var i :| 0 <= i < |init| && a in PageOf(init[i]);
      assert pages[i] == init[i];
    } else {
      assert a in PageOf(pages[|pages| - 1]);
    }
  }

  /** Pages that all occur in `q` contribute no author that `q` lacks. */
  lemma AuthorSetIncluded(p: seq<Fetch<GutendexResponse>>, q: seq<Fetch<GutendexResponse>>)
    requires forall i :: 0 <= i < |p| ==> p[i] in q
    ensures AuthorSet(p) <= AuthorSet(q)
  {
    forall a | a in AuthorSet(p) ensures a in AuthorSet(q) {
      AuthorSetFrom(p, a);
      var i :| 0 <= i < |p| && a in PageOf(p[i]);
      var j :| 0 <= j < |q| && q[j] == p[i];
      AuthorSetHas(q, j, a);
    }
  }

  /** Merging the same pages in any order, from an empty list, gives the same
      elements and the same length: the number of distinct authors. */
  lemma PagesOrderIndependent(p: seq<Fetch<GutendexResponse>>, q: seq<Fetch<GutendexResponse>>)
    requires multiset(p) == multiset(q)
    ensures Elems(MergePages([], p)) == Elems(MergePages([], q)) == AuthorSet(p)
    ensures |MergePages([], p)| == |MergePages([], q)| == |AuthorSet(p)|
  {
    forall i | 0 <= i < |p| ensures p[i] in q {
      assert p[i] in multiset(p);
    }
    forall j | 0 <= j < |q| ensures q[j] in p {
      assert q[j] in multiset(q);
    }
    AuthorSetIncluded(p, q);
    AuthorSetIncluded(q, p);
    MergePagesElems([], p);
    MergePagesElems([], q);
    MergePagesCount(p);
    MergePagesCount(q);
  }

  // ---------------------------------------------------------------------
  // Unique-author merge: the shared slice
  // ---------------------------------------------------------------------

  /** The slice of unique authors shared by the merges of one language. */
  class AuthorList {
    var items: seq<Author>

    constructor ()
      ensures items == []
    {
      items := [];
    }

    /** Merges the authors of one fetched page. `signalled` says whether the
        merge reaches the point where it reports to the wait group: a failed
        fetch returns before that. */
    method AppendUniqueAuthors(response: Fetch<GutendexResponse>) returns (signalled: bool)
      modifies this
      ensures signalled <==> response.Got?
      ensures items == MergePage(old(items), response)
      ensures |old(items)| <= |items| && items[..|old(items)|] == old(items)
      ensures NoDuplicates(old(items)) ==> NoDuplicates(items)
    {
      MergePageSpec(items, response);
      if response.Failed? {
        return false;
      }
      var books := response.value.results;
      var i := 0;
      while i < |books|
        invariant 0 <= i <= |books|
        invariant Merge(items, PageAuthors(books[i..])) == MergePage(old(items), response)
      {
        var bookAuthors := books[i].authors;
        assert books[i..][1..] == books[i + 1..];
        MergeAppend(items, bookAuthors, PageAuthors(books[i + 1..]));
        var j := 0;
        while j < |bookAuthors|
          invariant 0 <= j <= |bookAuthors|
          invariant Merge(Merge(items, bookAuthors[j..]), PageAuthors(books[i + 1..])) == MergePage(old(items), response)
        {
          assert bookAuthors[j..][1..] == bookAuthors[j + 1..];
          if bookAuthors[j] !in items {
            items := items + [bookAuthors[j]];
          }
          j := j + 1;
        }
        i := i + 1;
      }
      return true;
    }
  }

  // ---------------------------------------------------------------------
  // Readership lookups
  // ---------------------------------------------------------------------

  /** Splits the countries that speak language `cc` into parallel lists of
      names and ISO codes; on a failed fetch both lists are empty and the
      fetch's error is written. */
  method FindCountryNamesAndCode(cc: string, directory: string -> Fetch<seq<ReadershipResponse>>)
    returns (countryNames: seq<string>, isoCodes: seq<string>, written: Option<HttpError>)
    ensures directory(cc).Failed? ==>
      countryNames == [] && isoCodes == [] &&
      written == Some(GetAndDecodeError(directory(cc).error, External, LANGUAGE2COUNTRIES + cc + "/"))
    ensures directory(cc).Got? ==>
      written == None &&
      |countryNames| == |isoCodes| == |directory(cc).value| &&
      forall i :: 0 <= i < |countryNames| ==>
        countryNames[i] == directory(cc).value[i].country && isoCodes[i] == directory(cc).value[i].isoCode
  {
    countryNames, isoCodes := [], [];
    var url := LANGUAGE2COUNTRIES + cc + "/";
    var fetched := directory(cc);
    if fetched.Failed? {
      return [], [], Some(GetAndDecodeError(fetched.error, External, url));
    }
    var responses := fetched.value;
    var i := 0;
    while i < |responses|
      invariant 0 <= i <= |responses|
      invariant |countryNames| == |isoCodes| == i
      invariant forall k :: 0 <= k < i ==> countryNames[k] == responses[k].country && isoCodes[k] == responses[k].isoCode
    {
      countryNames := countryNames + [responses[i].country];
      isoCodes := isoCodes + [responses[i].isoCode];
      i := i + 1;
    }
    written := None;
  }

  /** Reference definition: the summed population of all entries. */
  function TotalPopulation(entries: seq<PopulationResponse>): int
  {
    if entries == [] then 0
    else TotalPopulation(entries[..|entries| - 1]) + entries[|entries| - 1].population
  }

  /** The total over entries split in two parts is the sum of the parts'
      totals, whichever way a country's administrative entries are grouped. */
  lemma {:induction false} TotalPopulationAppend(a: seq<PopulationResponse>, b: seq<PopulationResponse>)
    ensures TotalPopulation(a + b) == TotalPopulation(a) + TotalPopulation(b)
    decreases |b|
  {
    if b != [] {
      var init := b[..|b| - 1];
      TotalPopulationAppend(a, init);
      assert (a + b)[..|a + b| - 1] == a + init;
    } else {
      assert a + b == a;
    }
  }

  /** The potential readers of country `c`: the summed population of its
      entries, or 0 (with the fetch's error written) when the fetch fails.
      The countries API is asked for the lower-cased code, so `populations`
      is keyed by it. */
  method FindNumOfReaders(c: string, populations: string -> Fetch<seq<PopulationResponse>>)
    returns (numOfReaders: int, written: Option<HttpError>)
    ensures populations(ToLower(c)).Got? ==>
      numOfReaders == TotalPopulation(populations(ToLower(c)).value) && written == None
    ensures populations(ToLower(c)).Failed? ==>
      numOfReaders == 0 &&
      written == Some(GetAndDecodeError(populations(ToLower(c)).error, External, COUNTRIES + "alpha/" + ToLower(c) + "/"))
  {
    var url := COUNTRIES + "alpha/" + ToLower(c) + "/";
    var fetched := populations(ToLower(c));
    if fetched.Failed? {
      return 0, Some(GetAndDecodeError(fetched.error, External, url));
    }
    var response := fetched.value;
    numOfReaders := 0;
    var i := 0;
    while i < |response|
      invariant 0 <= i <= |response|
      invariant numOfReaders == TotalPopulation(response[..i])
    {
      assert response[..i + 1][..i] == response[..i];
      numOfReaders := numOfReaders + response[i].population;
      i := i + 1;
    }
    assert response[..i] == response;
    written := None;
  }
}

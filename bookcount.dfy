/** The bookcount request: per requested language, the number of books and
    the number of distinct authors, gathered page by page. */
module Bookcount {
  import opened Structs
  import opened Http
  import opened Text
  import opened Constants
  import opened Helpers

  /** The catalog returns at most this many books per page. */
  const PageSize: nat := 32

  /** One catalog query: the language filter and the page parameter, which the
      first page goes without. */
  datatype PageQuery = PageQuery(language: string, page: Option<nat>)

  function PageNumber(q: PageQuery): nat
  {
    match q.page
    case None => 1
    case Some(n) => n
  }

  /** The pages fetched for a language with `count` results: page 1 without a
      page parameter, then pages 2 through count / 32 + 1. */
  function PagePlan(language: string, count: nat): (plan: seq<PageQuery>)
    ensures |plan| == count / PageSize + 1
    ensures plan[0] == PageQuery(language, None)
    ensures forall k :: 1 <= k < |plan| ==> plan[k] == PageQuery(language, Some(k + 1))
    ensures forall k :: 0 <= k < |plan| ==> PageNumber(plan[k]) == k + 1
    ensures forall r :: 0 <= r < count ==> r / PageSize + 1 <= |plan|
  {
    seq(count / PageSize + 1, k requires 0 <= k => QueryAt(language, k))
  }

  /** The query for the k-th planned page, counting from 0. */
  function QueryAt(language: string, k: nat): PageQuery
  {
    PageQuery(language, if k == 0 then None else Some(k + 1))
  }

  /** The planned pages are distinct and together hold every result. */
  lemma PagePlanCovers(language: string, count: nat)
    ensures |PagePlan(language, count)| * PageSize > count
    ensures forall k, l :: 0 <= k < l < |PagePlan(language, count)| ==>
      PagePlan(language, count)[k] != PagePlan(language, count)[l]
  {
    var plan := PagePlan(language, count);
    assert count == (count / PageSize) * PageSize + count % PageSize;
    forall k, l | 0 <= k < l < |plan| ensures plan[k] != plan[l] {
      assert PageNumber(plan[k]) != PageNumber(plan[l]);
    }
  }

  /** What the catalog answers to each planned query. */
  function PageFetches(catalog: PageQuery -> Fetch<GutendexResponse>, plan: seq<PageQuery>): (pages: seq<Fetch<GutendexResponse>>)
    ensures |pages| == |plan|
    ensures forall k :: 0 <= k < |plan| ==> pages[k] == catalog(plan[k])
  {
    seq(|plan|, k requires 0 <= k < |plan| => catalog(plan[k]))
  }

  /** What one requested language code contributes: its output, or the way
      the whole request ends there. */
  datatype LanguageStep = Counted(output: GutendexOutput) | Halt(outcome: Outcome<seq<GutendexOutput>>)

  /** The step for one code: slicing a code shorter than two characters
      panics; a failed first page ends the request with its error; a failed
      later page never reports to the wait group, so the request stalls;
      otherwise the code's output counts the distinct authors of all pages. */
  function ForLanguage(code: string, catalog: PageQuery -> Fetch<GutendexResponse>): LanguageStep
  {
    if |code| < 2 then Halt(Panicked)
    else
      var language := code[..2];
      match catalog(PageQuery(language, None))
      case Failed(e) =>
        Halt(Finished([ErrorWrite(GetAndDecodeError(e, External, GUTENDEX + "?languages=" + language))]))
      case Got(first) =>
        var pages := PageFetches(catalog, PagePlan(language, first.count));
        if !AllFetched(pages) then Halt(Stalled)
        else Counted(GutendexOutput(language, first.count, |AuthorSet(pages)|))
  }

  predicate AllFetched(pages: seq<Fetch<GutendexResponse>>)
  {
    forall k :: 0 <= k < |pages| ==> pages[k].Got?
  }

  /** The outputs of the codes processed so far, or how the request ended. */
  datatype Run = Running(outputs: seq<GutendexOutput>) | Halted(outcome: Outcome<seq<GutendexOutput>>)

  /** Processing the codes in input order, each by `step`, until one of them
      halts. */
  function Collect(codes: seq<string>, step: string -> LanguageStep): Run
  {
    if codes == [] then Running([])
    else match Collect(codes[..|codes| - 1], step)
      case Halted(o) => Halted(o)
      case Running(outs) =>
        match step(codes[|codes| - 1])
        case Counted(out) => Running(outs + [out])
        case Halt(o) => Halted(o)
  }

  /** The step of the request for each code. */
  function Steps(catalog: PageQuery -> Fetch<GutendexResponse>): string -> LanguageStep
  {
    code => ForLanguage(code, catalog)
  }

  /** The error written when the answer cannot be encoded. With a
      library-wide count of 0 every output's fraction is a division by zero,
      and a non-finite float cannot be encoded as JSON. */
  const EncodingError := HttpError(500, "Error during generation of response")

  /** The whole request, given the library-wide fetch, the `language` query
      value ("" when absent) and the catalog. */
  function BookCount(allBooks: Fetch<GutendexResponse>, language: string,
                     catalog: PageQuery -> Fetch<GutendexResponse>): Outcome<seq<GutendexOutput>>
  {
    match allBooks
    case Failed(e) => Finished([ErrorWrite(GetAndDecodeError(e, External, GUTENDEX))])
    case Got(library) =>
      if language == "" then Finished([ErrorWrite(HttpError(400, "Error: Please provide a language"))])
      else match Collect(Split(language, ','), Steps(catalog))
        case Running(outs) =>
          if library.count == 0 then Finished([ErrorWrite(EncodingError)])
          else Finished([JsonWrite(outs)])
        case Halted(o) => o
  }

  /** Once a code has halted the request, later codes change nothing. */
  lemma {:induction false} CollectHaltedPrefix(codes: seq<string>, k: nat, step: string -> LanguageStep)
    requires k <= |codes|
    requires Collect(codes[..k], step).Halted?
    ensures Collect(codes, step) == Collect(codes[..k], step)
    decreases |codes| - k
  {
    if k < |codes| {
      var init := codes[..|codes| - 1];
      assert init[..k] == codes[..k];
      CollectHaltedPrefix(init, k, step);
    } else {
      assert codes[..k] == codes;
    }
  }

  /** The codes run to completion exactly when every code is counted, and
      then there is one output per code, in input order. */
  lemma {:induction false} CollectOutputs(codes: seq<string>, step: string -> LanguageStep)
    ensures Collect(codes, step).Running? <==>
      forall i :: 0 <= i < |codes| ==> step(codes[i]).Counted?
    ensures Collect(codes, step).Running? ==>
      |Collect(codes, step).outputs| == |codes| &&
      forall i :: 0 <= i < |codes| ==> Collect(codes, step).outputs[i] == step(codes[i]).output
  {
    if codes != [] {
      var init := codes[..|codes| - 1];
      CollectOutputs(init, step);
      assert forall i :: 0 <= i < |init| ==> init[i] == codes[i];
    }
  }

  /** A code the request can serve: long enough to slice, and its first page
      and every planned page fetched. */
  predicate Served(code: string, catalog: PageQuery -> Fetch<GutendexResponse>)
  {
    |code| >= 2 &&
    catalog(PageQuery(code[..2], None)).Got? &&
    forall q :: q in PagePlan(code[..2], catalog(PageQuery(code[..2], None)).value.count) ==> catalog(q).Got?
  }

  /** A code is counted exactly when it is served, and its output then names
      the code's first two characters, the catalog's count for them and the
      number of distinct authors over all their planned pages. */
  lemma ForLanguageCounted(code: string, catalog: PageQuery -> Fetch<GutendexResponse>)
    ensures ForLanguage(code, catalog).Counted? <==> Served(code, catalog)
    ensures ForLanguage(code, catalog).Counted? ==>
      var out := ForLanguage(code, catalog).output;
      out.language == code[..2] &&
      out.count == catalog(PageQuery(code[..2], None)).value.count &&
      out.authors == |AuthorSet(PageFetches(catalog, PagePlan(code[..2], out.count)))|
  {
    if |code| >= 2 && catalog(PageQuery(code[..2], None)).Got? {
      var plan := PagePlan(code[..2], catalog(PageQuery(code[..2], None)).value.count);
      var pages := PageFetches(catalog, plan);
      if !AllFetched(pages) {
        var k :| 0 <= k < |pages| && pages[k].Failed?;
        assert plan[k] in plan;
      }
      if exists q :: q in plan && catalog(q).Failed? {
        var q :| q in plan && catalog(q).Failed?;
        var k :| 0 <= k < |plan| && plan[k] == q;
        assert pages[k].Failed?;
      }
    }
  }

  /** Whether the request answered with its JSON body alone. */
  predicate Answered(r: Outcome<seq<GutendexOutput>>)
  {
    r.Finished? && |r.writes| == 1 && r.writes[0].JsonWrite?
  }

  /** Every code is counted by its step exactly when it is served, and each
      counted code's output is the one ForLanguageCounted describes. */
  lemma StepsCounted(codes: seq<string>, catalog: PageQuery -> Fetch<GutendexResponse>)
    ensures forall i :: 0 <= i < |codes| ==>
      (Steps(catalog)(codes[i]).Counted? <==> Served(codes[i], catalog))
    ensures forall i :: 0 <= i < |codes| && Steps(catalog)(codes[i]).Counted? ==>
      var out := Steps(catalog)(codes[i]).output;
      out.language == codes[i][..2] &&
      out.count == catalog(PageQuery(codes[i][..2], None)).value.count &&
      out.authors == |AuthorSet(PageFetches(catalog, PagePlan(codes[i][..2], out.count)))|
  {
    forall i | 0 <= i < |codes|
      ensures Steps(catalog)(codes[i]).Counted? <==> Served(codes[i], catalog)
      ensures Steps(catalog)(codes[i]).Counted? ==>
        var out := Steps(catalog)(codes[i]).output;
        out.language == codes[i][..2] &&
        out.count == catalog(PageQuery(codes[i][..2], None)).value.count &&
        out.authors == |AuthorSet(PageFetches(catalog, PagePlan(codes[i][..2], out.count)))|
    {
      ForLanguageCounted(codes[i], catalog);
    }
  }

  /** Every code of the list is served. */
  predicate AllServed(codes: seq<string>, catalog: PageQuery -> Fetch<GutendexResponse>)
  {
    forall i :: 0 <= i < |codes| ==> Served(codes[i], catalog)
  }

  /** The request answers with JSON exactly when the library-wide fetch
      succeeds with a nonzero count, a language is given and every
      comma-separated code is served. */
  lemma BookCountAnswered(allBooks: Fetch<GutendexResponse>, language: string,
                          catalog: PageQuery -> Fetch<GutendexResponse>)
    ensures Answered(BookCount(allBooks, language, catalog)) <==>
      allBooks.Got? && allBooks.value.count != 0 && language != "" && AllServed(Split(language, ','), catalog)
  {
    var codes := Split(language, ',');
    CollectOutputs(codes, Steps(catalog));
    StepsCounted(codes, catalog);
    if allBooks.Got? && language != "" && Collect(codes, Steps(catalog)).Halted? {
      HaltedNotAnswered(codes, catalog);
    }
  }

  /** A JSON answer holds one output per comma-separated code, in input
      order, each naming the code's first two characters, the catalog's count
      for them and the number of distinct authors over all their planned
      pages. */
  lemma BookCountOutputs(allBooks: Fetch<GutendexResponse>, language: string,
                         catalog: PageQuery -> Fetch<GutendexResponse>)
    requires Answered(BookCount(allBooks, language, catalog))
    ensures var codes := Split(language, ',');
      var outs := BookCount(allBooks, language, catalog).writes[0].body;
      |outs| == |codes| &&
      forall i :: 0 <= i < |codes| ==>
        |codes[i]| >= 2 &&
        outs[i].language == codes[i][..2] &&
        catalog(PageQuery(codes[i][..2], None)).Got? &&
        outs[i].count == catalog(PageQuery(codes[i][..2], None)).value.count &&
        outs[i].authors == |AuthorSet(PageFetches(catalog, PagePlan(codes[i][..2], outs[i].count)))|
  {
    var codes := Split(language, ',');
    BookCountAnswered(allBooks, language, catalog);
    CollectOutputs(codes, Steps(catalog));
    StepsCounted(codes, catalog);
  }

  /** A halted run writes no JSON at all. */
  lemma {:induction false} HaltedNotAnswered(codes: seq<string>, catalog: PageQuery -> Fetch<GutendexResponse>)
    requires Collect(codes, Steps(catalog)).Halted?
    ensures !AnswersJson(Collect(codes, Steps(catalog)).outcome)
  {
    var init := codes[..|codes| - 1];
    if Collect(init, Steps(catalog)).Halted? {
      HaltedNotAnswered(init, catalog);
    }
  }

  /** When the first page of any requested language cannot be fetched, the
      request writes no JSON. */
  lemma BookCountFirstPageFails(allBooks: Fetch<GutendexResponse>, language: string,
                                catalog: PageQuery -> Fetch<GutendexResponse>, i: nat)
    requires i < |Split(language, ',')|
    requires var code := Split(language, ',')[i];
      |code| >= 2 && catalog(PageQuery(code[..2], None)).Failed?
    ensures !AnswersJson(BookCount(allBooks, language, catalog))
  {
    var codes := Split(language, ',');
    if allBooks.Got? && language != "" {
      CollectOutputs(codes, Steps(catalog));
      assert !Steps(catalog)(codes[i]).Counted?;
      HaltedNotAnswered(codes, catalog);
    }
  }

  /** With an empty library the request never writes JSON: it ends early,
      or its encoding of the outputs fails with a 500. */
  lemma BookCountEmptyLibrary(allBooks: Fetch<GutendexResponse>, language: string,
                              catalog: PageQuery -> Fetch<GutendexResponse>)
    requires allBooks.Got? && allBooks.value.count == 0
    ensures !AnswersJson(BookCount(allBooks, language, catalog))
    ensures language != "" && Collect(Split(language, ','), Steps(catalog)).Running? ==>
      BookCount(allBooks, language, catalog) == Finished([ErrorWrite(EncodingError)])
  {
    var codes := Split(language, ',');
    if language != "" && Collect(codes, Steps(catalog)).Halted? {
      HaltedNotAnswered(codes, catalog);
    }
  }

  /** Without a `language` value the request is a 400 and answers no JSON,
      though the library-wide count has been fetched already. */
  lemma BookCountWithoutLanguage(allBooks: Fetch<GutendexResponse>, catalog: PageQuery -> Fetch<GutendexResponse>)
    requires allBooks.Got?
    ensures StatusOf(BookCount(allBooks, "", catalog).writes) == 400
    ensures !AnswersJson(BookCount(allBooks, "", catalog))
  {
  }

  /** One iteration of the request's loop: fetch the code's first page,
      merge every planned page into a fresh author list, and either record
      the output or end the request. */
  method LanguageOutput(countryCode: string, catalog: PageQuery -> Fetch<GutendexResponse>)
    returns (step: LanguageStep)
    ensures step == ForLanguage(countryCode, catalog)
  {
    if |countryCode| < 2 {
      return Halt(Panicked);
    }
    var gutenUrl := GUTENDEX + "?languages=" + countryCode[..2];
    var gutendexResponse := catalog(PageQuery(countryCode[..2], None));
    if gutendexResponse.Failed? {
      return Halt(Finished([ErrorWrite(GetAndDecodeError(gutendexResponse.error, External, gutenUrl))]));
    }
    var authors := new AuthorList();
    var count := gutendexResponse.value.count;
    ghost var pages := PageFetches(catalog, PagePlan(countryCode[..2], count));
    var allSignalled := MergeAllPages(authors, countryCode[..2], count, catalog, pages);
    if !allSignalled {
      // the wait for all merges is never released
      return Halt(Stalled);
    }
    MergePagesCount(pages);
    return Counted(GutendexOutput(countryCode[..2], count, |authors.items|));
  }

  /** Merges page 1 and then pages 2 through count / 32 + 1 into the author
      list; `allSignalled` says whether every merge reported back, that is,
      whether every page was fetched. `pages` names what the catalog answers
      for each of those pages in turn. */
  method MergeAllPages(authors: AuthorList, language: string, count: nat,
                       catalog: PageQuery -> Fetch<GutendexResponse>,
                       ghost pages: seq<Fetch<GutendexResponse>>)
    returns (allSignalled: bool)
    requires |pages| == count / PageSize + 1
    requires pages[0] == catalog(PageQuery(language, None))
    requires forall k :: 1 <= k < |pages| ==> pages[k] == catalog(PageQuery(language, Some(k + 1)))
    requires authors.items == []
    modifies authors
    ensures allSignalled <==> AllFetched(pages)
    ensures authors.items == MergePages([], pages)
  {
    var pagesAmount := count / PageSize;
    allSignalled := authors.AppendUniqueAuthors(catalog(PageQuery(language, None)));
    MergePagesStep([], pages, 0);
    AllFetchedStep(pages, 0);
    var i := 0;
    while i < pagesAmount
      invariant 0 <= i <= pagesAmount
      invariant authors.items == MergePages([], pages[..i + 1])
      invariant allSignalled == AllFetched(pages[..i + 1])
    {
      var signalled := authors.AppendUniqueAuthors(catalog(PageQuery(language, Some(i + 2))));
      MergePagesStep([], pages, i + 1);
      AllFetchedStep(pages, i + 1);
      allSignalled := allSignalled && signalled;
      i := i + 1;
    }
    assert pages[..i + 1] == pages;
  }

  /** Every page of a prefix one longer was fetched exactly when every page
      of the shorter prefix and the added page were. */
  lemma AllFetchedStep(pages: seq<Fetch<GutendexResponse>>, n: nat)
    requires n < |pages|
    ensures AllFetched(pages[..n + 1]) <==> AllFetched(pages[..n]) && pages[n].Got?
  {
    assert pages[..n + 1][n] == pages[n];
    assert forall k :: 0 <= k < n ==> pages[..n + 1][k] == pages[..n][k];
  }

  /** The request: fetch the library-wide count, check the language value,
      then handle the comma-separated codes in input order. */
  method BookCountGetRequest(allBooks: Fetch<GutendexResponse>, language: string,
                             catalog: PageQuery -> Fetch<GutendexResponse>)
    returns (outcome: Outcome<seq<GutendexOutput>>)
    ensures outcome == BookCount(allBooks, language, catalog)
  {
    if allBooks.Failed? {
      return Finished([ErrorWrite(GetAndDecodeError(allBooks.error, External, GUTENDEX))]);
    }
    if language == "" {
      return Finished([ErrorWrite(HttpError(400, "Error: Please provide a language"))]);
    }
    var countryCodes := Split(language, ',');
    var outputs: seq<GutendexOutput> := [];
    var c := 0;
    while c < |countryCodes|
      invariant 0 <= c <= |countryCodes|
      invariant Collect(countryCodes[..c], Steps(catalog)) == Running(outputs)
    {
      assert countryCodes[..c + 1][..c] == countryCodes[..c];
      var step := LanguageOutput(countryCodes[c], catalog);
      if step.Halt? {
        CollectHaltedPrefix(countryCodes, c + 1, Steps(catalog));
        return step.outcome;
      }
      outputs := outputs + [step.output];
      c := c + 1;
    }
    assert countryCodes[..c] == countryCodes;
    if allBooks.value.count == 0 {
      // every fraction divides by zero, and encoding a non-finite float fails
      return Finished([ErrorWrite(EncodingError)]);
    }
    return Finished([JsonWrite(outputs)]);
  }
}

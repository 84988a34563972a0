# gutendexAPI library statistics, modelled in Dafny

The gutendexAPI service answers two questions about the Project Gutenberg
catalog. Both are modelled here.

- **bookcount**: for each requested language, how many books there are and
  how many distinct authors wrote them.
- **readership**: for the countries that speak a language, that language's
  book and author counts and each country's potential readers (its summed
  population).

Each upstream GET-and-decode is an input value: a decoded answer or a
failure (`Http.Fetch`). The catalog, the language-to-countries directory,
the service's own bookcount endpoint and the countries API are functions
from the query to such a value. The same query always gets the same answer.
The countries API is keyed by the lower-cased ISO code, which is what the
handler puts in its URL.

What a handler writes back is a sequence of writes (`Http.Write`): error
writes and the JSON body. The first write fixes the status. A request ends
in one of three ways (`Http.Outcome`):

- it finishes with its writes;
- it stalls on a wait group that is never released;
- it panics.

Files:

- `structs.dfy`: the records of `utils/structs.go`.
- `constants.dfy`: the URLs of `utils/constants.go`.
- `http.dfy`: fetch results, the errors `GetAndDecode` writes, writes and outcomes.
- `text.dfy`: `strings.Split` and `strings.Join` on one separator, `HasSuffix`, ASCII `ToLower`.
- `helpers.dfy`:
  - the unique-author merge, as the class `AuthorList` whose
    `AppendUniqueAuthors` method runs the nested book/author loop over a
    `seq` field;
  - the functions it is specified by (`Merge`, `MergePage`, `MergePages`);
    the reference set `AuthorSet` and their lemmas;
  - `FindCountryNamesAndCode` and `FindNumOfReaders`.
- `bookcount.dfy`:
  - the page plan;
  - the per-language step and the whole request as functions;
  - the request's loops as methods proved equal to those functions;
  - the lemmas about the answer.
- `readership.dfy`:
  - limit handling, path parsing and the clamp;
  - the whole request as functions;
  - the request's steps as methods proved equal to them;
  - the lemmas about the answer.

Behaviour of the code worth noting:

- A page fetch inside `AppendUniqueAuthors` that fails returns before
  `wg.Done()`. The `wg.Wait()` of its language then never returns, so the
  request hangs: it is modelled as `Stalled`.
- With a library-wide count of 0, every output's fraction divides by zero.
  Encoding a non-finite float fails, so the request answers 500 "Error
  during generation of response" instead of JSON.
- The library-wide catalog fetch happens before the `language` value is
  checked. A request without a language therefore fails with the catalog's
  error if that fetch fails, and with a 400 otherwise.
- When the country lookup of a readership request fails, the handler writes
  its error and carries on. It then writes the JSON body for zero countries
  after the error. The first write, and so the status, is the error.
- A negative `limit` is not rejected: it shows no country.
- A code shorter than two characters makes `countryCode[:2]` panic. An
  empty bookcount answer makes `responses[0]` panic as soon as one country
  is to be shown. Both are modelled as the `Panicked` outcome, not as
  preconditions.

## Model

| member | source | states |
|---|---|---|
| Helpers.AuthorList.constructor | handler/bookcountHandler.go:88 | each language starts from an empty author list |
| Helpers.AuthorList.AppendUniqueAuthors | handler/helpers.go:32-53 | it signals the wait group exactly when the page was fetched. The new list is the old one merged with the page's authors in book order. The old list stays a prefix, and a duplicate-free list stays duplicate-free |
| Helpers.PageAuthorsMembers | handler/helpers.go:42-43 | the authors the nested loop visits are exactly the authors of the page's books |
| Helpers.MergePageSpec | handler/helpers.go:37-50 | after merging a page, the old list is a prefix of the new one. An author is in the new list iff it was in the old list or wrote a book on the page. Duplicate-freedom is kept, and a failed fetch leaves the list unchanged |
| Helpers.MergeExtends | handler/helpers.go:45-47 | the merge only appends: nothing is removed or reordered |
| Helpers.MergeElems | handler/helpers.go:45-47 | the merged list holds the union of the old list's authors and the merged authors |
| Helpers.MergeNoDuplicates | handler/helpers.go:45-47 | the contains-check keeps a duplicate-free list duplicate-free; authors are equal when name and birth year both agree |
| Helpers.MergeKnown | handler/helpers.go:45 | merging authors that are all in the list already changes nothing |
| Helpers.MergeIdempotent | handler/helpers.go:45-47 | merging the same authors a second time changes nothing |
| Helpers.MergePageTwice | handler/helpers.go:42-50 | merging the same page a second time changes nothing |
| Helpers.MergeAppend | handler/helpers.go:42-50 | merging two runs of authors one after the other is the same as merging them together |
| Helpers.DistinctCount | handler/bookcountHandler.go:123 | a duplicate-free list's length is its number of distinct authors |
| Helpers.MergeFromEmpty | handler/helpers.go:42-50 | from an empty list, the merge holds exactly the merged authors, without duplicates, and its length is their number of distinct values |
| Helpers.MergeOrderIndependent | handler/helpers.go:42-50 | from an empty list, authors with the same set of values give the same set and the same length, whatever their order |
| Helpers.MergePagesElems | handler/bookcountHandler.go:114-122 | merging pages one after another adds exactly the authors of the fetched pages, and keeps the list duplicate-free |
| Helpers.MergePagesCount | handler/bookcountHandler.go:122-123 | after all pages are merged into an empty list, its length is the number of distinct authors over the fetched pages |
| Helpers.AuthorSetHas | handler/bookcountHandler.go:114-119 | an author of any fetched page is among the language's distinct authors |
| Helpers.AuthorSetFrom | handler/bookcountHandler.go:114-119 | every one of the language's distinct authors comes from some fetched page |
| Helpers.AuthorSetIncluded | handler/bookcountHandler.go:114-119 | pages that all appear among other pages contribute no author those others lack |
| Helpers.PagesOrderIndependent | handler/bookcountHandler.go:114-122 | merging the same pages in any order, as the goroutines may, gives the same author set and the same length: the number of distinct authors |
| Helpers.FindCountryNamesAndCode | handler/helpers.go:58-79 | on a failed lookup: two empty lists and the lookup's error. Otherwise: no error, and two lists as long as the directory's answer, holding each country's name and ISO code in its order |
| Helpers.TotalPopulationAppend | handler/helpers.go:97-102 | the population sum of two runs of entries is the sum of their sums |
| Helpers.FindNumOfReaders | handler/helpers.go:86-105 | the countries API is asked for the lower-cased ISO code. On success: the sum of the populations of all entries (0 for none) and no error. On failure: 0 and the error for the alpha URL with that lower-cased code |
| Text.Split | handler/bookcountHandler.go:70 | the value splits into one piece more than it has separators |
| Text.SplitPiecesFree | handler/bookcountHandler.go:70 | no piece holds the separator |
| Text.JoinSplit | handler/bookcountHandler.go:70 | the pieces, joined with the separator, give back the value |
| Text.SplitJoin | handler/readershipHandler.go:72 | separator-free pieces, joined and split again, come back unchanged |
| Text.SplitAround | handler/readershipHandler.go:72 | splitting around one separator is splitting each side on its own |
| Text.ToLower | handler/helpers.go:90 | each ASCII capital letter becomes lower case and every other character is kept |
| Bookcount.PagePlan | handler/bookcountHandler.go:100-119 | count / 32 + 1 queries: page 1 without a page parameter, then pages 2 to count / 32 + 1, in that order. Every result index falls on a planned page |
| Bookcount.PagePlanCovers | handler/bookcountHandler.go:100-118 | the planned pages hold more than `count` results, and no page is queried twice |
| Bookcount.CollectHaltedPrefix | handler/bookcountHandler.go:76-85 | once a code has ended the request, the later codes are never processed |
| Bookcount.CollectOutputs | handler/bookcountHandler.go:76-128 | the loop finishes iff every code is counted. It then holds one output per code, in input order |
| Bookcount.ForLanguageCounted | handler/bookcountHandler.go:79-126 | a code is counted iff it has two characters and its first page and every planned page were fetched. Its output then has its first two characters, the catalog's count for them, and the number of distinct authors over all planned pages |
| Bookcount.StepsCounted | handler/bookcountHandler.go:76-126 | the per-code statement of ForLanguageCounted, for every code of the list |
| Bookcount.BookCountAnswered | handler/bookcountHandler.go:39-140 | the request answers with its JSON body alone iff the library-wide fetch succeeds with a nonzero count, a language is given and every comma-separated code is served |
| Bookcount.BookCountEmptyLibrary | handler/bookcountHandler.go:96-137 | with a library-wide count of 0 the request never writes JSON. When every code is counted, it writes the 500 of the failed encoding |
| Bookcount.BookCountOutputs | handler/bookcountHandler.go:70-133 | a JSON answer has one output per comma-separated code, in input order. Each output has the code's first two characters, the count for them and the number of distinct authors over the planned pages |
| Bookcount.HaltedNotAnswered | handler/bookcountHandler.go:82-85 | a request ended by one of its codes writes no JSON |
| Bookcount.BookCountFirstPageFails | handler/bookcountHandler.go:82-85 | if the first page of any requested language cannot be fetched, the request writes no JSON |
| Bookcount.BookCountWithoutLanguage | handler/bookcountHandler.go:43-67 | without a language the response is a 400 with no JSON, although the library-wide fetch came first |
| Bookcount.LanguageOutput | handler/bookcountHandler.go:76-126 | one iteration of the loop over the codes, proved equal to the step ForLanguageCounted describes |
| Bookcount.MergeAllPages | handler/bookcountHandler.go:103-122 | all planned pages are merged into a fresh list, in plan order. Every merge reports back iff every page was fetched |
| Bookcount.BookCountGetRequest | handler/bookcountHandler.go:39-140 | the whole handler, proved equal to the request BookCountAnswered and BookCountOutputs describe |
| Readership.EndpointSegments | handler/readershipHandler.go:72 | the endpoint's path followed by a code splits into five segments, the code last |
| Readership.ParseReadershipPath | handler/readershipHandler.go:64-87 | on the readership path, the code is the segment that follows the endpoint; later segments are ignored |
| Readership.ParseReadershipPathUnterminated | handler/readershipHandler.go:67-87 | a path without its final slash gets one before splitting, so the code is still found |
| Readership.ParseBareEndpoint | handler/readershipHandler.go:67-78 | the endpoint without a code, with or without its final slash, asks for a country code |
| Readership.SegmentsAfter | handler/readershipHandler.go:67-72 | whatever follows a slash, the segments before it come first |
| Readership.EffectiveLimit | handler/readershipHandler.go:106-108 | the clamp: the number of countries when the limit is 0 or above it, the limit otherwise |
| Readership.ShownCountries | handler/readershipHandler.go:106-115 | the loop shows all countries for a limit of 0 or above their number, exactly `limit` for a limit in between, and none for a negative one |
| Readership.CountryOutputsFields | handler/readershipHandler.go:115-126 | output i has country i's name and ISO code, the given book and author counts, and country i's potential readers |
| Readership.AnswerOutputs | handler/readershipHandler.go:88-133 | once the bookcount answer is in, the request panics iff some country is to be shown and that answer is empty. Otherwise the JSON body is one output per shown country, in directory order, with the first bookcount entry's counts and the country's summed population |
| Readership.AnswerAfterListingFailure | handler/readershipHandler.go:90-133 | a failed country lookup writes its error, then a JSON body with no country; the status is not 200 |
| Readership.ReadershipRejects | handler/readershipHandler.go:53-84 | a limit that is not an integer is a 500, and a path of at most five segments is a 400; neither writes JSON |
| Readership.ReadershipGetRequest | handler/readershipHandler.go:38-87 | the limit and path handling, proved equal to the request the lemmas above describe |
| Readership.AnswerCountries | handler/readershipHandler.go:88-133 | the lookups, the clamp and the output loop, proved equal to the answer AnswerOutputs describes |
| Readership.ShowCountries | handler/readershipHandler.go:115-126 | the loop over the first n countries builds the outputs of CountryOutputsFields and writes the failed population lookups' errors in order |

## Left out

- Goroutines, `sync.WaitGroup` and `sync.Mutex`
  (handler/bookcountHandler.go:103-122, handler/helpers.go:44-52): the
  pages of a language are merged one after another. PagesOrderIndependent
  shows that any other order gives the same set and the same count. A
  failed page is modelled as the stall it causes; the writes made before
  a stall are not.
- `http.Get`, JSON decoding and encoding, and `http.Error`: each fetch is
  an input value. The only encoding failure modelled is the non-finite
  fraction of an empty library. GetAndDecode's choice of message is kept
  as the plain definition `GetAndDecodeError`.
- The loopback call to the service's own bookcount endpoint: its answer is
  an input list, keyed by the country code.
- `url.Parse`, `Query()` and `strconv.Atoi`. The language value, the path,
  and the limit (absent, an integer or not an integer) are inputs. A URL
  that does not parse is not modelled.
- The `Fraction` field and `floatPrecision`: floating point. Only its
  effect for a library-wide count of 0 is modelled.
- `GutendexResponse.count` is a `nat`: the catalog's count is taken to be
  non-negative.
- Page 1 of a language is fetched twice: once for the count and once by its
  merge. Both fetches get the same answer here, so a second fetch that
  fails (and stalls the request) or reports another count is not modelled.
- FindNumOfReaders: the population sum is an unbounded integer, so a
  64-bit overflow is not modelled.
- ToLower: only ASCII letters are lowered. Strings are sequences of
  characters, so a two-byte slice of a multi-byte code is not modelled.
- A nil slice and an empty slice are both the empty sequence. Go encodes
  the first as `null` and the second as `[]`.
- Logging, handler/statusHandler.go, handler/defaultHandler.go and
  main.go are not part of this model.

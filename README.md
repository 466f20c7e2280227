# Verified model of the local search and crawl accumulation of universal-docs-mcp

universal-docs-mcp crawls documentation sites with a headless browser, turns
each page into Markdown and stores one record `{url, title, markdown}` per page
in a local dataset. This project models the two pieces of the crawler with
their own logic, and proves properties about them:

- **Local search** (`searchLocalDatasets`). It scans the stored records in
  store order. It skips a record whose markdown is missing or empty. It keeps a
  record when the markdown, passed through `toLowerCase`, contains the query
  passed through `toLowerCase`. For each kept record it returns
  `{url, title, content}`, with the full markdown as `content`. Module
  `LocalSearch`: the function `Search` specifies this filter as written, and
  the method `SearchLocalDatasets` is the loop, proved equal to `Search`. The
  lemmas prove store order, field copying, soundness, completeness, the
  empty-query case and insensitivity to ASCII letter case. `FoldedSearch` is
  the same filter with a case fold in place of `toLowerCase`. It is
  insensitive to case in every letter the model knows. The lemmas relate the two
  searches, and two counterexamples show where the search as written is not
  case-insensitive (see "## Findings").
- **Crawl result accumulation** (`runCrawler`'s request handler). A page's
  final URL is appended to `crawledUrls` only when Markdown extraction and the
  dataset push both succeed. A throw in either step is caught and leaves the
  list unchanged. Module `CrawlAccumulation`: the class `Crawler` holds
  `crawledUrls` and the dataset. `HandleRequest` is one handler run.
  `RunCrawler` folds it over the sequence of runs the crawler library makes and
  is proved equal to `SuccessfulUrls`. The lemmas prove the result is the
  successful runs' URLs in order. They also prove that a later search finds a
  successful page whose markdown is non-empty and, lower-cased, contains the
  lower-cased query.
- Module `CaseText` holds the string operations the search uses: letter case
  and substring containment. Letter case covers ASCII letters and the basic
  Greek alphabet. `JsLowerStr` is `toLowerCase`, with its final-sigma rule.
  `FoldStr` is the context-free case fold. The two agree except at Greek
  sigmas. `Wrappers` holds `Option`.

Inputs that replace I/O: the records `Dataset.open()` / `getData()` would load
are a `seq<Record>`. The handler runs are a `seq<HandlerRun>`. Each run carries
the page's final URL and title. It also carries whether extraction returned
markdown or threw, and, after markdown, whether the push succeeded or threw.

Three behaviours of the code that a reader may not expect:
- The code does not deduplicate records when it writes them.
- It writes a record even when the extracted markdown is the empty string. The
  search then skips that record.
- A `Dataset.pushData` failure is caught at src/crawler.ts:70-72 and only
  logged. It is not surfaced to the caller: the page is simply missing from
  `crawledUrls`.

## Model

| member | source | states |
|---|---|---|
| CaseText.FoldChar | src/crawler.ts:141 | the fold of a character is never a capital or a final sigma; a capital maps to its small letter, a final sigma to the small sigma, any other character to itself |
| CaseText.FoldStr | src/crawler.ts:141 | case folding keeps the length and folds every position independently of its neighbours |
| CaseText.JsLowerStr | src/crawler.ts:141 | `toLowerCase` keeps the length and agrees with the case fold at every position that is not a sigma |
| CaseText.JsLowerWithoutSigma | src/crawler.ts:141 | on a string without Σ or ς, `toLowerCase` equals the case fold |
| CaseText.FoldJsLower | src/crawler.ts:141 | case-folding the result of `toLowerCase` gives the case fold of the original string |
| CaseText.JsLowerAsciiCase | src/crawler.ts:141 | strings that differ only in the case of ASCII letters have the same `toLowerCase` |
| CaseText.SameUpToCaseIff | src/crawler.ts:141 | two strings have the same folded form exactly when they differ only in letter case |
| CaseText.Includes | src/crawler.ts:146 | defines `includes`: the needle is a prefix of the haystack or of one of its suffixes |
| CaseText.IncludesIffOccurs | src/crawler.ts:146 | `includes` holds exactly when the needle occurs at some position of the haystack |
| CaseText.IncludesFold | src/crawler.ts:146 | a substring is still a substring after both strings are case-folded |
| CaseText.IncludesJsLower | src/crawler.ts:141-146 | a match of the lower-cased strings is also a match of the folded strings |
| CaseText.IncludesJsLowerNoSigma | src/crawler.ts:141-146 | an occurrence of a sigma-free needle survives `toLowerCase` of the haystack, where it reads as the folded needle |
| LocalSearch.HasBody | src/crawler.ts:144 | defines the records the loop does not skip: markdown present and not the empty string |
| LocalSearch.Scan | src/crawler.ts:143-154 | defines the loop's `results` for a given lower-casing: the hits of the records with a body whose lowered body contains the lowered query, in store order |
| LocalSearch.Search | src/crawler.ts:140-156 | defines the search's value as written: `Scan` with `toLowerCase` applied to the query and to each body |
| LocalSearch.SearchLocalDatasets | src/crawler.ts:135-157 | the loop, which lower-cases the query once, skips bodiless records and keeps records whose lower-cased body contains it, returns exactly `Search(items, query)` |
| LocalSearch.MatchIndices | src/crawler.ts:143-153 | the kept store positions are increasing and valid; each holds a record with a body whose lowered body contains the lowered query; every such position is kept |
| LocalSearch.ScanByIndices | src/crawler.ts:143-154 | result j is the hit built from the record at the j-th kept position |
| LocalSearch.ScanAppend | src/crawler.ts:143-154 | scanning two stretches of records one after the other concatenates their results |
| LocalSearch.ScanComplete | src/crawler.ts:143-153 | every kept record appears among the results |
| LocalSearch.SearchIsOrderedSelection | src/crawler.ts:140-154 | the results are an increasing selection of store positions; each copies url, title and whole markdown of a record with a body; a position is selected iff its record has a body whose `toLowerCase` contains the query's `toLowerCase` |
| LocalSearch.SearchLength | src/crawler.ts:140-154 | there are never more results than records |
| LocalSearch.SearchSound | src/crawler.ts:141-146 | every result's content is non-empty; its `toLowerCase` contains the query's `toLowerCase`; so, case-folded, it contains the case-folded query |
| LocalSearch.SearchFromStore | src/crawler.ts:147-152 | every result equals `{url, title, markdown}` of some stored record that has a body |
| LocalSearch.SearchComplete | src/crawler.ts:143-153 | a record with a body whose `toLowerCase` contains the query's `toLowerCase` is returned with its url, title and full markdown |
| LocalSearch.SearchSkipsBodiless | src/crawler.ts:144 | inserting a record with missing or empty markdown anywhere in the store changes no search result |
| LocalSearch.SearchCaseInsensitive | src/crawler.ts:141 | queries that differ only in the case of ASCII letters return identical results |
| LocalSearch.SearchFindsAnyCase | src/crawler.ts:141-146 | a record whose markdown contains the query in any letter case is returned, when neither the query nor that occurrence holds a sigma |
| LocalSearch.SearchEmptyQuery | src/crawler.ts:141-146 | the empty query returns exactly the records with a body, in store order |
| LocalSearch.FoldedSearch | src/crawler.ts:140-156 | defines the corrected search: `Scan` with the case fold applied to the query and to each body |
| LocalSearch.FoldedSearchCaseInsensitive | src/crawler.ts:141 | for the corrected search, queries that differ only in ASCII or Greek letter case return identical results |
| LocalSearch.FoldedSearchFindsAnyCase | src/crawler.ts:141-146 | the corrected search returns every record whose markdown contains the query in any ASCII or Greek letter case |
| LocalSearch.SearchWithinFolded | src/crawler.ts:141-146 | every result of the search as written is also a result of the corrected search |
| LocalSearch.SearchAgreesWithoutSigma | src/crawler.ts:141-146 | when neither the query nor any stored markdown holds Σ or ς, the search as written and the corrected search return the same results |
| LocalSearch.FinalSigmaCounterexample | src/crawler.ts:141-146 | the markdown "ΑΣΑ" contains the query "ΑΣ" verbatim; the search as written returns nothing; the corrected search returns the record |
| LocalSearch.GreekCaseCounterexample | src/crawler.ts:141-146 | "ΑΣ" and "Ασ" differ only in case; over the markdown "ασα" the search as written returns nothing for the first and the record for the second |
| CrawlAccumulation.SuccessfulUrls | src/crawler.ts:63-69 | defines the accumulated `crawledUrls`: the final URLs of the runs where extraction and push succeeded, in run order |
| CrawlAccumulation.Written | src/crawler.ts:63-67 | defines the records those runs pushed, `{url, title, markdown}`, in run order |
| CrawlAccumulation.Crawler.constructor | src/crawler.ts:27 | a crawl starts with an empty `crawledUrls` over the store as it is |
| CrawlAccumulation.Crawler.HandleRequest | src/crawler.ts:42-72 | the final URL is appended, and the record `{url, title, markdown}` written, exactly when extraction and push both succeed; otherwise both are unchanged |
| CrawlAccumulation.RunCrawler | src/crawler.ts:23-91 | running the handler over every run returns `SuccessfulUrls(runs)` and leaves the store extended by `Written(runs)` |
| CrawlAccumulation.SuccessIndices | src/crawler.ts:59-72 | the successful run positions are increasing and valid; each is a run where both steps succeeded; every such run is included |
| CrawlAccumulation.CrawledAreSuccessful | src/crawler.ts:59-72 | URL j of the result, and record j written, belong to the j-th successful run, in run order |
| CrawlAccumulation.SuccessfulUrlsAppend | src/crawler.ts:69 | the result over two stretches of runs is the concatenation of their results |
| CrawlAccumulation.FailedRunAddsNothing | src/crawler.ts:70-72 | a run that threw, at any point in the crawl, leaves the result as if it had not happened |
| CrawlAccumulation.CrawledLength | src/crawler.ts:69 | the result has no more URLs than there were handler runs |
| CrawlAccumulation.CrawledPageIsSearchable | src/crawler.ts:63-69 | a successful page with non-empty markdown whose `toLowerCase` contains the query's `toLowerCase` is found by a search over the store after the crawl |
| CrawlAccumulation.EmptyMarkdownCrawledNotFound | src/crawler.ts:60-69 | a successful page with empty markdown is in the result, yet its record changes no search |

## Left out

- Letter case covers ASCII letters and the basic Greek alphabet only. JavaScript's `toLowerCase` follows full Unicode case mapping, which is not modelled. Some of its mappings change the length: "İ".toLowerCase() has two characters. `JsLowerStr`'s and `FoldStr`'s "keeps the length" and `IncludesJsLowerNoSigma` hold for this letter map only. They would fail for such mappings: "ẞ" lower-cases to "ß" but folds to "ss". `IncludesFold` and `FoldedSearchFindsAnyCase` do not depend on the length, because a full case fold still maps each code point to a string and so distributes over concatenation.
- JsLowerStr: the final-sigma rule is modelled on the immediate neighbours only. Unicode also skips case-ignorable characters (apostrophes, combining marks) when it looks for the neighbouring letters.
- SearchCaseInsensitive: stated only for queries that differ in the case of ASCII letters. For Greek it fails in the code as written: `GreekCaseCounterexample` proves it, and `FoldedSearchCaseInsensitive` states the full property for the corrected search.
- SearchFindsAnyCase: stated only when neither the query nor the occurrence holds a sigma. With a sigma, the code as written can miss even a verbatim occurrence: `FinalSigmaCounterexample` proves it, and `FoldedSearchFindsAnyCase` states the full property for the corrected search.
- `Dataset.open()` / `getData()` and `Dataset.pushData` are storage I/O. The loaded records are an input sequence. A successful push is modelled as appending the record; a push that throws is modelled as writing nothing.
- Record fields cast with `as string` are modelled as strings. A stored value of another type is not modelled, and neither is a falsy non-string `markdown`.
- The crawler library's request queue, page budget (`maxRequestsPerCrawl`), retries, deduplication and same-hostname link discovery (`enqueueLinks`) are not part of this model. That code is not in the repository. The sequence of handler runs is an input, so the model claims no bound in terms of `maxPages` and no hostname scoping.
- `enqueueLinks` runs after the try block. If it throws, the URL is already in `crawledUrls`. What the library then does with the request is not modelled.
- Browser work is an opaque outcome of a run: waiting for network idle, hiding overlays, reading title, HTML and URL. The `PreparationThrew` run covers a throw there, which leaves the result unchanged.
- `extractMarkdownPristine` (src/utils.ts) wraps foreign HTML parsing, readability and conversion libraries. It is an opaque outcome of a run: markdown or a throw.
- `extractSinglePage` is not modelled. It runs the crawler on one URL and extracts its markdown. It also calls `Dataset.pushData` with `{url, title, markdown}` (src/crawler.ts:116-120). That writes into the same default dataset that `searchLocalDatasets` reads, although its doc comment (src/crawler.ts:95) says it does not. The record it writes carries the requested URL, not the final URL. The search's input sequence of records already covers such records, so every property of the search holds for them too.
- JavaScript strings are sequences of UTF-16 code units, and `includes` compares code units. Here a `char` is a Unicode scalar value, so a string holding a lone surrogate cannot be represented. On well-formed strings, matching code units and matching scalar values agree, so nothing proved here changes for them.
- Logging suppression and the storage directory setting are process configuration, and are not modelled.
- Concurrent handler runs are not modelled. The runs form one sequence in the order they update `crawledUrls`. The crawler library can run several handlers at once. One handler can then finish `Dataset.pushData` before another, yet append its URL after it. So the order of `crawledUrls` and the order of the written records can differ. `CrawledAreSuccessful`, which pairs URL j with record j, holds only for this sequential abstraction.

## Findings

| source | as written | input that shows it | evidently intended | confidence | as-written member | corrected member |
|---|---|---|---|---|---|---|
| src/crawler.ts:141-146 | query and markdown are compared after `toLowerCase`, which turns a capital sigma at the end of a word into a final sigma (ς) and elsewhere into σ | markdown "ΑΣΑ", query "ΑΣ": the query lower-cases to "ας" and the markdown to "ασα", so the record is skipped although it contains the query verbatim | a case-insensitive match: every record that contains the query in any letter case is returned | medium, not executed | LocalSearch.FinalSigmaCounterexample | LocalSearch.FoldedSearchFindsAnyCase |
| src/crawler.ts:141 | the query's case decides the result for Greek text, through the same final-sigma rule | markdown "ασα": the query "Ασ" finds the record, the query "ΑΣ", which differs only in case, does not | queries that differ only in letter case return the same results | medium, not executed | LocalSearch.GreekCaseCounterexample | LocalSearch.FoldedSearchCaseInsensitive |

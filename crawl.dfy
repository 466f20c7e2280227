/**
 * The result accumulation of `runCrawler`: its request handler appends a
 * page's final URL to the captured `crawledUrls` list only when extraction
 * and the dataset push both succeed. Which pages the crawler library hands
 * to the handler, and in what order, is an input: the sequence of handler
 * runs. Browser work, extraction and storage are opaque outcomes of a run.
 */
module CrawlAccumulation {
  import opened Wrappers
  import opened CaseText
  import opened LocalSearch

  /** What `Dataset.pushData(...)` did: stored the record, or threw. */
  datatype Push = Pushed | PushThrew

  /**
   * What `extractMarkdownPristine(html, url)` did: returned markdown, after
   * which the push ran, or threw, after which nothing more ran in the try block.
   */
  datatype Extraction = Extracted(markdown: string, push: Push) | ExtractionThrew

  /**
   * One invocation of the request handler. `PreparationThrew` is a run where
   * waiting for the page, hiding overlays or reading title, HTML or URL threw
   * before the try block; `Rendered` carries the page's final URL and title
   * and the outcomes of the two steps inside the try block.
   */
  datatype HandlerRun =
    | PreparationThrew
    | Rendered(finalUrl: string, title: string, extraction: Extraction)

  /** Both steps of the try block succeeded. */
  predicate Succeeded(run: HandlerRun) {
    run.Rendered? && run.extraction.Extracted? && run.extraction.push == Pushed
  }

  /** The record the handler pushes for a run whose extraction succeeded. */
  function StoredRecord(run: HandlerRun): Record
    requires run.Rendered? && run.extraction.Extracted?
  {
    Record(run.finalUrl, run.title, Some(run.extraction.markdown))
  }

  /** The final URLs of the successful runs, in run order. */
  function SuccessfulUrls(runs: seq<HandlerRun>): seq<string>
  {
    if runs == [] then []
    else
      var last := runs[|runs| - 1];
      SuccessfulUrls(runs[..|runs| - 1]) + (if Succeeded(last) then [last.finalUrl] else [])
  }

  /** The records the successful runs pushed, in run order. */
  function Written(runs: seq<HandlerRun>): seq<Record>
  {
    if runs == [] then []
    else
      var last := runs[|runs| - 1];
      Written(runs[..|runs| - 1]) + (if Succeeded(last) then [StoredRecord(last)] else [])
  }

  /**
   * The state one crawl's handler touches: the captured `crawledUrls` list, and
   * the default dataset as this process sees it.
   */
  class Crawler {
    var crawledUrls: seq<string>
    var dataset: seq<Record>

    /** A crawl starts with no crawled URLs over whatever the store already holds. */
    constructor (store: seq<Record>)
      ensures crawledUrls == [] && dataset == store
    {
      crawledUrls := [];
      dataset := store;
    }

    /** The request handler's effect on the crawl's state for one run. */
    method HandleRequest(run: HandlerRun)
      modifies this
      ensures crawledUrls == old(crawledUrls) + (if Succeeded(run) then [run.finalUrl] else [])
      ensures dataset == old(dataset) + (if Succeeded(run) then [StoredRecord(run)] else [])
    {
      match run
      case PreparationThrew =>
      case Rendered(url, title, extraction) =>
        match extraction
        case ExtractionThrew =>
        case Extracted(markdown, push) =>
          match push
          case PushThrew =>
          case Pushed =>
            dataset := dataset + [Record(url, title, Some(markdown))];
            crawledUrls := crawledUrls + [url];
    }
  }

  /** `runCrawler`: run the handler for every run, then return `crawledUrls`. */
  method RunCrawler(store: seq<Record>, runs: seq<HandlerRun>) returns (crawledUrls: seq<string>, finalStore: seq<Record>)
    ensures crawledUrls == SuccessfulUrls(runs)
    ensures finalStore == store + Written(runs)
  {
    var crawler := new Crawler(store);
    for i := 0 to |runs|
      invariant crawler.crawledUrls == SuccessfulUrls(runs[..i])
      invariant crawler.dataset == store + Written(runs[..i])
    {
      assert runs[..i + 1][..i] == runs[..i];
      crawler.HandleRequest(runs[i]);
    }
    assert runs[..|runs|] == runs;
    crawledUrls := crawler.crawledUrls;
    finalStore := crawler.dataset;
  }

  // ---------------------------------------------------------------------------
  // Properties of the accumulated result

  /** The positions of the successful runs, in increasing order. */
  ghost function SuccessIndices(runs: seq<HandlerRun>): (idx: seq<nat>)
    ensures forall j :: 0 <= j < |idx| ==> idx[j] < |runs| && Succeeded(runs[idx[j]])
    ensures forall j, j' :: 0 <= j < j' < |idx| ==> idx[j] < idx[j']
    ensures forall k :: 0 <= k < |runs| && Succeeded(runs[k]) ==> k in idx
  {
    if runs == [] then []
    else
      var n := |runs| - 1;
      SuccessIndices(runs[..n]) + (if Succeeded(runs[n]) then [n] else [])
  }

  /**
   * The crawl's result is exactly the final URLs of the successful runs, in
   * run order, and the records written are those runs' records, in the same
   * order.
   */
  lemma {:induction false} CrawledAreSuccessful(runs: seq<HandlerRun>)
    ensures |SuccessfulUrls(runs)| == |Written(runs)| == |SuccessIndices(runs)|
    ensures forall j :: 0 <= j < |SuccessfulUrls(runs)| ==>
              SuccessfulUrls(runs)[j] == runs[SuccessIndices(runs)[j]].finalUrl &&
              Written(runs)[j] == StoredRecord(runs[SuccessIndices(runs)[j]])
  {
    if runs != [] {
      CrawledAreSuccessful(runs[..|runs| - 1]);
    }
  }

  /** Folding the handler over two stretches of runs concatenates their results. */
  lemma {:induction false} SuccessfulUrlsAppend(a: seq<HandlerRun>, b: seq<HandlerRun>)
    ensures SuccessfulUrls(a + b) == SuccessfulUrls(a) + SuccessfulUrls(b)
  {
    if b == [] {
      assert a + b == a;
    } else {
      var n := |b| - 1;
      assert (a + b)[..|a + b| - 1] == a + b[..n];
      SuccessfulUrlsAppend(a, b[..n]);
    }
  }

  /** A run that threw anywhere leaves the crawl's result unchanged. */
  lemma FailedRunAddsNothing(before: seq<HandlerRun>, run: HandlerRun, after: seq<HandlerRun>)
    requires !Succeeded(run)
    ensures SuccessfulUrls(before + [run] + after) == SuccessfulUrls(before + after)
  {
    SuccessfulUrlsAppend(before + [run], after);
    SuccessfulUrlsAppend(before, [run]);
    SuccessfulUrlsAppend(before, after);
    assert [run][..0] == [];
  }

  /** No more URLs than handler runs. */
  lemma CrawledLength(runs: seq<HandlerRun>)
    ensures |SuccessfulUrls(runs)| <= |runs|
  {
    CrawledAreSuccessful(runs);
    IncreasingBound(SuccessIndices(runs), |runs|);
  }

  /**
   * A successful run is searchable afterwards: when its markdown is non-empty
   * and, lower-cased, contains the lower-cased query, a search over the store
   * after the crawl returns its URL, title and markdown.
   */
  lemma CrawledPageIsSearchable(store: seq<Record>, runs: seq<HandlerRun>, k: nat, query: string)
    requires k < |runs| && Succeeded(runs[k])
    requires runs[k].extraction.markdown != []
    requires Includes(JsLowerStr(runs[k].extraction.markdown), JsLowerStr(query))
    ensures Hit(runs[k].finalUrl, runs[k].title, runs[k].extraction.markdown) in Search(store + Written(runs), query)
  {
    CrawledAreSuccessful(runs);
    var idx := SuccessIndices(runs);
    var j :| 0 <= j < |idx| && idx[j] == k;
    var items := store + Written(runs);
    assert items[|store| + j] == StoredRecord(runs[k]);
    SearchComplete(items, query, |store| + j);
  }

  /**
   * A successful run whose extraction gave empty markdown still adds its URL
   * to the crawl's result, yet the record it writes changes no search.
   */
  lemma EmptyMarkdownCrawledNotFound(store: seq<Record>, runs: seq<HandlerRun>, k: nat, query: string)
    requires k < |runs| && Succeeded(runs[k]) && runs[k].extraction.markdown == []
    ensures runs[k].finalUrl in SuccessfulUrls(runs)
    ensures Search(store + Written(runs[..k + 1]), query) == Search(store + Written(runs[..k]), query)
  {
    var done := runs[..k + 1];
    assert done[..k] == runs[..k];
    var r := StoredRecord(runs[k]);
    assert Written(done) == Written(runs[..k]) + [r];
    var before := store + Written(runs[..k]);
    assert store + Written(done) == before + [r];
    assert (before + [r])[..|before|] == before;
    assert runs == done + runs[k + 1..];
    SuccessfulUrlsAppend(done, runs[k + 1..]);
    assert SuccessfulUrls(done)[|SuccessfulUrls(done)| - 1] == runs[k].finalUrl;
  }
}

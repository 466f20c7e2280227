/**
 * The local search over the stored page records (`searchLocalDatasets`).
 * The records that `Dataset.open()` / `getData()` would load are an input
 * sequence, in store order. `Search` is the filter the loop computes, with
 * `toLowerCase` as written; `SearchLocalDatasets` is the loop itself.
 * `FoldedSearch` is the same filter with the case fold, the behaviour a
 * case-insensitive search is meant to have.
 */
module LocalSearch {
  import opened Wrappers
  import opened CaseText

  /** One stored page, as `Dataset.pushData` wrote it; `markdown` may be absent. */
  datatype Record = Record(url: string, title: string, markdown: Option<string>)

  /** One search result: the record's URL and title and its full markdown. */
  datatype Hit = Hit(url: string, title: string, content: string)

  /** The record has a markdown body that is neither missing nor empty. */
  predicate HasBody(r: Record) {
    r.markdown.Some? && r.markdown.value != []
  }

  /** The record is kept: its body, lowered by `lower`, contains the lowered query. */
  predicate Matches(r: Record, lower: string -> string, lowQuery: string) {
    HasBody(r) && Includes(lower(r.markdown.value), lowQuery)
  }

  function ToHit(r: Record): Hit
    requires r.markdown.Some?
  {
    Hit(r.url, r.title, r.markdown.value)
  }

  /** The hits for the records whose body, lowered by `lower`, contains `lowQuery`, in store order. */
  function Scan(items: seq<Record>, lower: string -> string, lowQuery: string): seq<Hit>
  {
    if items == [] then []
    else
      var last := items[|items| - 1];
      Scan(items[..|items| - 1], lower, lowQuery) + (if Matches(last, lower, lowQuery) then [ToHit(last)] else [])
  }

  /** What `searchLocalDatasets(query)` returns over the records `items`. */
  function Search(items: seq<Record>, query: string): seq<Hit>
  {
    Scan(items, JsLowerStr, JsLowerStr(query))
  }

  /** The search with the case fold in place of `toLowerCase`. */
  function FoldedSearch(items: seq<Record>, query: string): seq<Hit>
  {
    Scan(items, FoldStr, FoldStr(query))
  }

  /** The sequential scan of the source: skip bodiless records, keep matches. */
  method SearchLocalDatasets(items: seq<Record>, query: string) returns (results: seq<Hit>)
    ensures results == Search(items, query)
  {
    results := [];
    var lowerQuery := JsLowerStr(query);
    for i := 0 to |items|
      invariant results == Scan(items[..i], JsLowerStr, lowerQuery)
    {
      assert items[..i + 1][..i] == items[..i];
      var item := items[i];
      if item.markdown.None? || item.markdown.value == [] {
        continue;
      }
      var md := item.markdown.value;
      if Includes(JsLowerStr(md), lowerQuery) {
        results := results + [Hit(item.url, item.title, md)];
      }
    }
    assert items[..|items|] == items;
  }

  // ---------------------------------------------------------------------------
  // Which records the scan keeps

  /** The store positions of the records `Scan` keeps, in increasing order. */
  ghost function MatchIndices(items: seq<Record>, lower: string -> string, lowQuery: string): (idx: seq<nat>)
    ensures forall j :: 0 <= j < |idx| ==> idx[j] < |items| && Matches(items[idx[j]], lower, lowQuery)
    ensures forall j, j' :: 0 <= j < j' < |idx| ==> idx[j] < idx[j']
    ensures forall k :: 0 <= k < |items| && Matches(items[k], lower, lowQuery) ==> k in idx
  {
    if items == [] then []
    else
      var n := |items| - 1;
      var rest := MatchIndices(items[..n], lower, lowQuery);
      if Matches(items[n], lower, lowQuery) then rest + [n] else rest
  }

  /** The scan's output is the kept records, position by position. */
  lemma {:induction false} ScanByIndices(items: seq<Record>, lower: string -> string, lowQuery: string)
    ensures |Scan(items, lower, lowQuery)| == |MatchIndices(items, lower, lowQuery)|
    ensures forall j :: 0 <= j < |Scan(items, lower, lowQuery)| ==>
              Scan(items, lower, lowQuery)[j] == ToHit(items[MatchIndices(items, lower, lowQuery)[j]])
  {
    if items != [] {
      var n := |items| - 1;
      ScanByIndices(items[..n], lower, lowQuery);
    }
  }

  /** Scanning a concatenation is concatenating the scans. */
  lemma {:induction false} ScanAppend(a: seq<Record>, b: seq<Record>, lower: string -> string, lowQuery: string)
    ensures Scan(a + b, lower, lowQuery) == Scan(a, lower, lowQuery) + Scan(b, lower, lowQuery)
  {
    if b == [] {
      assert a + b == a;
    } else {
      var n := |b| - 1;
      assert (a + b)[..|a + b| - 1] == a + b[..n];
      ScanAppend(a, b[..n], lower, lowQuery);
    }
  }

  /** A record that matches is returned, with its url, title and full markdown. */
  lemma ScanComplete(items: seq<Record>, lower: string -> string, lowQuery: string, k: nat)
    requires k < |items| && Matches(items[k], lower, lowQuery)
    ensures ToHit(items[k]) in Scan(items, lower, lowQuery)
  {
    ScanByIndices(items, lower, lowQuery);
    var idx := MatchIndices(items, lower, lowQuery);
    var j :| 0 <= j < |idx| && idx[j] == k;
    assert Scan(items, lower, lowQuery)[j] == ToHit(items[k]);
  }

  // ---------------------------------------------------------------------------
  // Properties of the search as written

  /**
   * The results are the hits of an increasing selection of store positions:
   * each copies url, title and the whole markdown of a record with a body,
   * and a record is selected exactly when its lower-cased body contains the
   * lower-cased query.
   */
  lemma SearchIsOrderedSelection(items: seq<Record>, query: string)
    ensures var idx := MatchIndices(items, JsLowerStr, JsLowerStr(query));
            var results := Search(items, query);
            |results| == |idx| <= |items| &&
            (forall j, j' :: 0 <= j < j' < |idx| ==> idx[j] < idx[j']) &&
            (forall j :: 0 <= j < |results| ==>
               idx[j] < |items| && HasBody(items[idx[j]]) &&
               results[j] == Hit(items[idx[j]].url, items[idx[j]].title, items[idx[j]].markdown.value)) &&
            (forall k :: 0 <= k < |items| ==>
               (k in idx <==> HasBody(items[k]) && Includes(JsLowerStr(items[k].markdown.value), JsLowerStr(query))))
  {
    var idx := MatchIndices(items, JsLowerStr, JsLowerStr(query));
    ScanByIndices(items, JsLowerStr, JsLowerStr(query));
    IncreasingBound(idx, |items|);
  }

  /** A strictly increasing sequence of naturals below `n` has at most `n` entries. */
  lemma {:induction false} IncreasingBound(idx: seq<nat>, n: nat)
    requires forall j :: 0 <= j < |idx| ==> idx[j] < n
    requires forall j, j' :: 0 <= j < j' < |idx| ==> idx[j] < idx[j']
    ensures |idx| <= n
  {
    if idx != [] {
      var m := idx[|idx| - 1];
      IncreasingBound(idx[..|idx| - 1], m);
    }
  }

  /** Never more results than records. */
  lemma SearchLength(items: seq<Record>, query: string)
    ensures |Search(items, query)| <= |items|
  {
    SearchIsOrderedSelection(items, query);
  }

  /**
   * Soundness: every result has a non-empty content whose lower-cased form
   * contains the lower-cased query, so the content contains the query up to
   * case.
   */
  lemma SearchSound(items: seq<Record>, query: string)
    ensures forall h :: h in Search(items, query) ==>
              h.content != [] && Includes(JsLowerStr(h.content), JsLowerStr(query)) &&
              Includes(FoldStr(h.content), FoldStr(query))
  {
    SearchIsOrderedSelection(items, query);
    forall h | h in Search(items, query)
      ensures h.content != [] && Includes(JsLowerStr(h.content), JsLowerStr(query))
      ensures Includes(FoldStr(h.content), FoldStr(query))
    {
      var j :| 0 <= j < |Search(items, query)| && Search(items, query)[j] == h;
      IncludesJsLower(h.content, query);
    }
  }

  /** Soundness, the other way round: each result is some stored record, copied. */
  lemma SearchFromStore(items: seq<Record>, query: string, h: Hit)
    requires h in Search(items, query)
    ensures exists k :: 0 <= k < |items| && HasBody(items[k]) && h == ToHit(items[k])
  {
    SearchIsOrderedSelection(items, query);
    var j :| 0 <= j < |Search(items, query)| && Search(items, query)[j] == h;
    var k := MatchIndices(items, JsLowerStr, JsLowerStr(query))[j];
    assert 0 <= k < |items| && HasBody(items[k]) && h == ToHit(items[k]);
  }

  /** Completeness: a record whose lower-cased body contains the lower-cased query is returned, in full. */
  lemma SearchComplete(items: seq<Record>, query: string, k: nat)
    requires k < |items| && HasBody(items[k])
    requires Includes(JsLowerStr(items[k].markdown.value), JsLowerStr(query))
    ensures Hit(items[k].url, items[k].title, items[k].markdown.value) in Search(items, query)
  {
    ScanComplete(items, JsLowerStr, JsLowerStr(query), k);
  }

  /** A record whose markdown is missing or empty changes no search, wherever it is stored. */
  lemma SearchSkipsBodiless(before: seq<Record>, r: Record, after: seq<Record>, query: string)
    requires !HasBody(r)
    ensures Search(before + [r] + after, query) == Search(before + after, query)
  {
    var lq := JsLowerStr(query);
    ScanAppend(before + [r], after, JsLowerStr, lq);
    ScanAppend(before, [r], JsLowerStr, lq);
    ScanAppend(before, after, JsLowerStr, lq);
    assert [r][..0] == [];
  }

  /** Queries that differ only in the case of ASCII letters give identical results. */
  lemma SearchCaseInsensitive(items: seq<Record>, q1: string, q2: string)
    requires SameUpToAsciiCase(q1, q2)
    ensures Search(items, q1) == Search(items, q2)
  {
    JsLowerAsciiCase(q1, q2);
  }

  /**
   * A record whose markdown contains the query written in any letter case is
   * found, provided neither the query nor that occurrence holds a sigma.
   */
  lemma SearchFindsAnyCase(items: seq<Record>, query: string, k: nat, written: string)
    requires k < |items| && HasBody(items[k])
    requires Includes(items[k].markdown.value, written) && SameUpToCase(written, query)
    requires NoSigma(written) && NoSigma(query)
    ensures ToHit(items[k]) in Search(items, query)
  {
    IncludesJsLowerNoSigma(items[k].markdown.value, written);
    SameUpToCaseIff(written, query);
    JsLowerWithoutSigma(query);
    SearchComplete(items, query, k);
  }

  /** The records with a body, in store order, each as a hit. */
  function Bodies(items: seq<Record>): seq<Hit>
  {
    if items == [] then []
    else (if HasBody(items[0]) then [ToHit(items[0])] else []) + Bodies(items[1..])
  }

  /** The empty query returns exactly the records with a body, in store order. */
  lemma {:induction false} SearchEmptyQuery(items: seq<Record>)
    ensures Search(items, "") == Bodies(items)
  {
    assert JsLowerStr("") == [];
    if items != [] {
      assert items == [items[0]] + items[1..];
      ScanAppend([items[0]], items[1..], JsLowerStr, []);
      assert [items[0]][..0] == [];
      if HasBody(items[0]) {
        IncludesEmpty(JsLowerStr(items[0].markdown.value));
      }
      SearchEmptyQuery(items[1..]);
    }
  }

  // ---------------------------------------------------------------------------
  // The case-folded search, and where the two differ

  /** Queries equal up to letter case, Greek included, give identical folded results. */
  lemma FoldedSearchCaseInsensitive(items: seq<Record>, q1: string, q2: string)
    requires SameUpToCase(q1, q2)
    ensures FoldedSearch(items, q1) == FoldedSearch(items, q2)
  {
    SameUpToCaseIff(q1, q2);
  }

  /** The folded search finds every record containing the query in any letter case. */
  lemma FoldedSearchFindsAnyCase(items: seq<Record>, query: string, k: nat, written: string)
    requires k < |items| && HasBody(items[k])
    requires Includes(items[k].markdown.value, written) && SameUpToCase(written, query)
    ensures ToHit(items[k]) in FoldedSearch(items, query)
  {
    IncludesFold(items[k].markdown.value, written);
    SameUpToCaseIff(written, query);
    ScanComplete(items, FoldStr, FoldStr(query), k);
  }

  /** Every result of the search as written is also a result of the folded search. */
  lemma {:induction false} SearchWithinFolded(items: seq<Record>, query: string)
    ensures forall h :: h in Search(items, query) ==> h in FoldedSearch(items, query)
  {
    if items != [] {
      var n := |items| - 1;
      SearchWithinFolded(items[..n], query);
      assert Search(items, query) == Search(items[..n], query) +
        (if Matches(items[n], JsLowerStr, JsLowerStr(query)) then [ToHit(items[n])] else []);
      assert FoldedSearch(items, query) == FoldedSearch(items[..n], query) +
        (if Matches(items[n], FoldStr, FoldStr(query)) then [ToHit(items[n])] else []);
      if Matches(items[n], JsLowerStr, JsLowerStr(query)) {
        IncludesJsLower(items[n].markdown.value, query);
        assert Matches(items[n], FoldStr, FoldStr(query));
      }
    }
  }

  /** Without sigmas in the query and the bodies, the two searches agree. */
  lemma {:induction false} SearchAgreesWithoutSigma(items: seq<Record>, query: string)
    requires NoSigma(query)
    requires forall k :: 0 <= k < |items| && items[k].markdown.Some? ==> NoSigma(items[k].markdown.value)
    ensures Search(items, query) == FoldedSearch(items, query)
  {
    JsLowerWithoutSigma(query);
    if items != [] {
      var n := |items| - 1;
      SearchAgreesWithoutSigma(items[..n], query);
      if items[n].markdown.Some? {
        JsLowerWithoutSigma(items[n].markdown.value);
      }
    }
  }

  /**
   * `toLowerCase` loses a verbatim occurrence: the markdown "ΑΣΑ" contains
   * the query "ΑΣ", but the query lower-cases to "ας" (final sigma) and the
   * markdown to "ασα", so the search as written returns nothing. The
   * case-folded search returns the record.
   */
  lemma FinalSigmaCounterexample()
    ensures var r := Record("u", "t", Some("\U{0391}\U{03A3}\U{0391}"));
            var query := "\U{0391}\U{03A3}";
            Includes(r.markdown.value, query) &&
            Search([r], query) == [] &&
            FoldedSearch([r], query) == [ToHit(r)]
  {
    var md := "\U{0391}\U{03A3}\U{0391}";
    var query := "\U{0391}\U{03A3}";
    assert md[..2] == query;
    assert JsLowerStr(query) == ['\U{03B1}', FINAL_SIGMA];
    assert JsLowerStr(md) == ['\U{03B1}', SIGMA, '\U{03B1}'];
    assert FoldStr(query) == ['\U{03B1}', SIGMA];
    assert FoldStr(md)[..2] == FoldStr(query);
    var lowMd, lowQuery := JsLowerStr(md), JsLowerStr(query);
    assert lowQuery[1] != lowMd[1] && lowQuery[0] != lowMd[1..][0] && |lowMd[2..]| < |lowQuery|;
    assert !(lowQuery <= lowMd) && !(lowQuery <= lowMd[1..]) && !(lowQuery <= lowMd[2..]);
    assert !(lowQuery <= lowMd[3..]) && lowMd[3..] == [];
    assert !Includes(lowMd[2..], lowQuery);
    assert !Includes(lowMd[1..], lowQuery);
    assert !Includes(lowMd, lowQuery);
    var r := Record("u", "t", Some(md));
    assert Includes(md, query);
    assert [r][..0] == [];
  }

  /**
   * The search as written is not insensitive to Greek case: "ΑΣ" and "Ασ"
   * differ only in case, yet over the markdown "ασα" the first finds nothing
   * and the second finds the record.
   */
  lemma GreekCaseCounterexample()
    ensures var r := Record("u", "t", Some("\U{03B1}\U{03C3}\U{03B1}"));
            SameUpToCase("\U{0391}\U{03A3}", "\U{0391}\U{03C3}") &&
            Search([r], "\U{0391}\U{03A3}") == [] &&
            Search([r], "\U{0391}\U{03C3}") == [ToHit(r)]
  {
    var md := "\U{03B1}\U{03C3}\U{03B1}";
    var q1, q2 := "\U{0391}\U{03A3}", "\U{0391}\U{03C3}";
    assert JsLowerStr(md) == md;
    assert JsLowerStr(q1) == ['\U{03B1}', FINAL_SIGMA];
    assert JsLowerStr(q2) == ['\U{03B1}', SIGMA];
    assert md[..2] == JsLowerStr(q2);
    var low := JsLowerStr(q1);
    assert low[1] != md[1] && low[0] != md[1..][0] && |md[2..]| < |low|;
    assert !(low <= md) && !(low <= md[1..]) && !(low <= md[2..]);
    assert !(low <= md[3..]) && md[3..] == [];
    assert !Includes(md[2..], low);
    assert !Includes(md[1..], low);
    assert !Includes(md, low);
    var r := Record("u", "t", Some(md));
    assert [r][..0] == [];
  }
}

/**
 * `scrape` of server/websites/dealabs.js: fetch the listing page, parse it,
 * load DEALS.json (an absent or corrupt file is an empty store), merge,
 * and write the merged records back. Every exception inside is caught; a
 * run that throws leaves DEALS.json as it was.
 */
module Scraper {
  import opened Wrappers
  import opened DealRecord
  import opened PageExtractor
  import opened StoreMerge

  /** The response of `fetch(url, ...)`, its page being the articles that `parse` selects from the body. */
  datatype FetchResult =
    | NetworkFailure
    | Response(ok: bool, status: int, articles: seq<Article>)

  /** What `JSON.parse` makes of the content of DEALS.json. */
  datatype StoredJson =
    | Malformed          // not valid JSON: JSON.parse throws, the catch keeps `[]`
    | NotIterable        // valid JSON but not an array (an object, a number, null, ...)
    | DealArray(deals: seq<Deal>)

  datatype StoreFile = Absent | Present(json: StoredJson)

  /** Why a run ended in the catch block. */
  datatype ScrapeError = NetworkError | HttpError(status: int) | Thrown(error: JsError)

  /**
   * Lines 74-83 and the spread of line 85: the existing records. An absent
   * or corrupt file gives `[]`; spreading a value that is not an array throws.
   */
  function LoadExisting(file: StoreFile): (r: Result<seq<Deal>, ScrapeError>)
    ensures r.Failure? <==> file == Present(NotIterable)
    ensures r.Failure? ==> r.error == Thrown(TypeError)
    ensures r.Success? && r.value != [] ==> file == Present(DealArray(r.value))
    ensures file.Present? && file.json.DealArray? ==> r == Success(file.json.deals)
  {
    match file
    case Absent => Success([])
    case Present(Malformed) => Success([])
    case Present(NotIterable) => Failure(Thrown(TypeError))
    case Present(DealArray(deals)) => Success(deals)
  }

  /**
   * What one run writes to DEALS.json, or the error that its catch block
   * reports. Nothing is written exactly when the fetch fails, the response
   * is not ok, the page does not parse, or the stored value is not an array.
   */
  function ScrapeOutcome(response: FetchResult, file: StoreFile): (r: Result<seq<Deal>, ScrapeError>)
    ensures r.Failure? <==>
      || response.NetworkFailure?
      || !response.ok
      || Parse(response.articles).Failure?
      || file == Present(NotIterable)
    ensures response.NetworkFailure? ==> r == Failure(NetworkError)
    ensures response.Response? && !response.ok ==> r == Failure(HttpError(response.status))
    ensures response.Response? && response.ok && Parse(response.articles).Failure? ==>
      r == Failure(Thrown(Parse(response.articles).error))
  {
    match response
    case NetworkFailure => Failure(NetworkError)
    case Response(ok, status, articles) =>
      if !ok then Failure(HttpError(status))
      else
        match Parse(articles)
        case Failure(e) => Failure(Thrown(e))
        case Success(batch) =>
          var existing :- LoadExisting(file);
          Success(Dedup(existing + batch))
  }

  /** DEALS.json, the store that persists from one run to the next. */
  class DealsFile {
    var file: StoreFile

    constructor (initial: StoreFile)
      ensures file == initial
    {
      file := initial;
    }

    /**
     * One run of `scrape`. The store is rewritten with the merged records
     * when the run succeeds and is left untouched when anything throws.
     */
    method Scrape(response: FetchResult)
      modifies this
      ensures ScrapeOutcome(response, old(file)).Success? ==>
                file == Present(DealArray(ScrapeOutcome(response, old(file)).value))
      ensures ScrapeOutcome(response, old(file)).Failure? ==> file == old(file)
    {
      if response.NetworkFailure? || !response.ok {
        return;
      }
      var parsed := Parse(response.articles);
      if parsed.Failure? {
        return;
      }
      var newDeals := parsed.value;
      var existingDeals: StoredJson := DealArray([]);
      if file.Present? {
        if !file.json.Malformed? {
          existingDeals := file.json;
        }
      }
      if existingDeals.NotIterable? {
        return;
      }
      var allDeals := Merge(existingDeals.deals, newDeals);
      file := Present(DealArray(allDeals));
    }
  }

  // ---------------------------------------------------------------------
  // What a run promises

  /** After a successful run the store holds no two records with equal ids, and every id of the old store and of the page. */
  lemma ScrapeKeepsIdsUnique(response: FetchResult, file: StoreFile)
    requires ScrapeOutcome(response, file).Success?
    ensures var stored := ScrapeOutcome(response, file).value;
      && DistinctIds(stored)
      && Ids(stored) == Ids(LoadExisting(file).value) + Ids(Parse(response.articles).value)
  {
    var existing, batch := LoadExisting(file).value, Parse(response.articles).value;
    DedupDistinct(existing + batch);
    DedupIds(existing + batch);
    IdsConcat(existing, batch);
  }

  /** With DEALS.json absent or corrupt, a run stores just the deduplicated page. */
  lemma ScrapeIntoEmptyStore(response: FetchResult, file: StoreFile)
    requires file == Absent || file == Present(Malformed)
    requires response.Response? && response.ok && Parse(response.articles).Success?
    ensures ScrapeOutcome(response, file) == Success(Dedup(Parse(response.articles).value))
  {
    assert [] + Parse(response.articles).value == Parse(response.articles).value;
  }

  /** A stored record is never replaced by a later duplicate: the old store, if its ids are distinct, is a prefix of the new one. */
  lemma ScrapeKeepsExistingRecords(response: FetchResult, deals: seq<Deal>)
    requires DistinctIds(deals)
    requires ScrapeOutcome(response, Present(DealArray(deals))).Success?
    ensures deals <= ScrapeOutcome(response, Present(DealArray(deals))).value
  {
    ExistingIsPrefix(deals, Parse(response.articles).value);
  }

  /** Scraping the same page twice stores exactly what scraping it once stored. */
  lemma ScrapeTwiceIsScrapeOnce(response: FetchResult, file: StoreFile)
    requires ScrapeOutcome(response, file).Success?
    ensures var stored := ScrapeOutcome(response, file).value;
      ScrapeOutcome(response, Present(DealArray(stored))) == Success(stored)
  {
    MergeIdempotent(LoadExisting(file).value, Parse(response.articles).value);
  }

  /** A page without articles leaves a store of distinct ids as it was. */
  lemma EmptyPageKeepsStore(status: int, deals: seq<Deal>)
    requires DistinctIds(deals)
    ensures ScrapeOutcome(Response(true, status, []), Present(DealArray(deals))) == Success(deals)
  {
    assert deals + [] == deals;
    DedupOfDistinct(deals);
  }

  /** Existing id 1 merged with new ids 1 and 2: two records, and the existing one is kept over its new duplicate. */
  lemma ExistingWinsExample(old1: Deal, new1: Deal, new2: Deal)
    requires old1.id == new1.id == Some(NumId(1.0)) && new2.id == Some(NumId(2.0))
    ensures Dedup([old1] + [new1, new2]) == [old1, new2]
  {
    var s := [old1] + [new1, new2];
    assert s[..2] == [old1, new1] && [old1, new1][..1] == [old1] && [old1][..0] == [];
    IdsAppend([], old1);
    assert [] + [old1] == [old1];
    IdsAppend([old1], new1);
    assert [old1] + [new1] == [old1, new1];
    assert Dedup([old1]) == [old1];
    assert Dedup([old1, new1]) == [old1];
    assert new2.id !in Ids([old1, new1]);
  }
}

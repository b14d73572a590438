/**
 * `PDFRepository`: a URL-keyed memo cache in front of the PDF download
 * service. What a download would give for a URL (a document or a
 * `PDFViewerError`) is a parameter of the fetch; it is consulted only on a
 * cache miss.
 */
module PdfStore {
  import opened Wrappers

  /** A `URL`, by its text. */
  type Url = string

  /**
   * A `PDFDocument`: the model keeps its page count, and an identity that
   * tells two documents with the same page count apart.
   */
  datatype PdfDocument = PdfDocument(identity: nat, pageCount: nat)

  /** `PDFViewerError` */
  datatype PdfViewerError = InvalidUrl | NetworkError(message: string) | InvalidPdfData | DownloadFailed

  type Cache = map<Url, PdfDocument>

  /** A fetch's answer and the cache it leaves. */
  datatype FetchOutcome = FetchOutcome(result: Result<PdfDocument, PdfViewerError>, cache: Cache)

  /**
   * `fetchPDFDocument(from:)` on values: a hit answers from the cache; a miss
   * answers with the download and stores a downloaded document under `url`.
   */
  function Fetch(cache: Cache, url: Url, download: Result<PdfDocument, PdfViewerError>): FetchOutcome {
    if url in cache then FetchOutcome(Success(cache[url]), cache)
    else if download.Success? then FetchOutcome(download, cache[url := download.value])
    else FetchOutcome(download, cache)
  }

  /** Whether a fetch calls the download service. */
  predicate Downloads(cache: Cache, url: Url) {
    url !in cache
  }

  /**
   * A fetch answers with what it stores: a document it returns is the one now
   * cached under `url`, and an error leaves the cache as it was.
   */
  lemma FetchStoresAnswer(cache: Cache, url: Url, download: Result<PdfDocument, PdfViewerError>)
    ensures var out := Fetch(cache, url, download);
      && (out.result.Success? ==> url in out.cache && out.cache[url] == out.result.value)
      && (out.result.Failure? ==> out.cache == cache && Downloads(cache, url))
      && (!Downloads(cache, url) ==> out.result == Success(cache[url]) && out.cache == cache)
      && (Downloads(cache, url) ==> out.result == download)
  {
  }

  /** A fetch changes only the entry for its own url. */
  lemma FetchKeepsOtherEntries(cache: Cache, url: Url, download: Result<PdfDocument, PdfViewerError>)
    ensures var out := Fetch(cache, url, download);
      && out.cache.Keys - {url} == cache.Keys - {url}
      && cache.Keys <= out.cache.Keys
      && (forall u :: u in cache && u != url ==> out.cache[u] == cache[u])
  {
  }

  /**
   * After a successful fetch, fetching the same url again calls no service,
   * gives the same document whatever a download would give, and leaves the
   * cache as it is.
   */
  lemma SecondFetchHits(cache: Cache, url: Url, first: Result<PdfDocument, PdfViewerError>,
                        second: Result<PdfDocument, PdfViewerError>)
    requires Fetch(cache, url, first).result.Success?
    ensures var out := Fetch(cache, url, first);
      && !Downloads(out.cache, url)
      && Fetch(out.cache, url, second) == FetchOutcome(out.result, out.cache)
  {
  }

  class PdfRepository {
    /** The `cache` dictionary. */
    var cache: Cache
    /** The urls the download service has been asked for, in order. */
    ghost var downloads: seq<Url>

    constructor ()
      ensures cache == map[] && downloads == []
    {
      cache := map[];
      downloads := [];
    }

    /**
     * `fetchPDFDocument(from:)`: answers as `Fetch` does and leaves its cache;
     * the service is called once on a miss and not at all on a hit.
     */
    method FetchPdfDocument(url: Url, download: Result<PdfDocument, PdfViewerError>)
      returns (r: Result<PdfDocument, PdfViewerError>)
      modifies this
      ensures FetchOutcome(r, cache) == Fetch(old(cache), url, download)
      ensures downloads == old(downloads) + (if Downloads(old(cache), url) then [url] else [])
    {
      if url in cache {
        return Success(cache[url]);
      }
      downloads := downloads + [url];
      if download.Failure? {
        return download;
      }
      cache := cache[url := download.value];
      r := download;
    }
  }

  /**
   * Two fetches of the same url where the first download succeeds: one
   * service call in all, and the second fetch gives the first's document
   * even though a second download would fail.
   */
  method FetchTwice(url: Url, document: PdfDocument) {
    var repository := new PdfRepository();
    var first := repository.FetchPdfDocument(url, Success(document));
    var second := repository.FetchPdfDocument(url, Failure(DownloadFailed));
    assert first == Success(document) && second == Success(document);
    assert repository.downloads == [url];
  }
}

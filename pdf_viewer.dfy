/**
 * `PDFViewerViewModel`: the page position, the page-count text and the
 * load state of the PDF viewer.
 *
 * The view states the model publishes are logged in order, so that the
 * intermediate `.idle` and `.loading` states of a refresh or a load are part
 * of what a contract can state. What the download would give is a parameter
 * of a load.
 */
module PdfViewer {
  import opened Wrappers
  import opened Numbers
  import opened PdfStore

  /** `PDFViewState` */
  datatype PdfViewState = Idle | Loading | Loaded(document: PdfDocument) | Failed(message: string)

  const LoadFailedMessage: string := "Failed to Load PDF"
  const NoPagesText: string := "No pages"

  /** `canGoToNextPage`, on the page index and the page count. */
  predicate CanGoForward(page: int, total: int) {
    page < total - 1
  }

  /** `canGoToPreviousPage`, on the page index. */
  predicate CanGoBack(page: int) {
    page > 0
  }

  /** The page index after `goToNextPage`: one further when allowed, else unchanged. */
  function NextPage(page: int, total: int): (next: int)
    ensures next == page || next == page + 1
    ensures next == page + 1 <==> page + 1 < total
    ensures 0 <= page < total ==> 0 <= next < total
  {
    if CanGoForward(page, total) then page + 1 else page
  }

  /** The page index after `goToPreviousPage`: one back when allowed, else unchanged. */
  function PreviousPage(page: int): (previous: int)
    ensures previous == page || previous == page - 1
    ensures previous == page - 1 <==> page > 0
    ensures page >= 0 ==> previous >= 0
  {
    if CanGoBack(page) then page - 1 else page
  }

  /** Going forward and then back returns to the page one started on, and so does going back and then forward. */
  lemma NavigationInverse(page: int, total: int)
    ensures CanGoForward(page, total) && page >= 0 ==> PreviousPage(NextPage(page, total)) == page
    ensures CanGoBack(page) && page < total ==> NextPage(PreviousPage(page), total) == page
  {
  }

  /** The page reached by `goToNextPage` called `steps` times from `page`. */
  function Forward(page: int, total: int, steps: nat): int
    decreases steps
  {
    if steps == 0 then page else Forward(NextPage(page, total), total, steps - 1)
  }

  /** Going forward `steps` times moves `steps` pages on, but never past the last page. */
  lemma {:induction false} ForwardStopsAtLastPage(page: int, total: int, steps: nat)
    requires 0 <= page < total
    ensures Forward(page, total, steps) == if page + steps < total then page + steps else total - 1
    decreases steps
  {
    if steps > 0 {
      ForwardStopsAtLastPage(NextPage(page, total), total, steps - 1);
    }
  }

  class PdfViewerViewModel {
    var viewState: PdfViewState
    var currentPage: int
    var totalPages: int
    /** The view states published so far, in order. */
    ghost var published: seq<PdfViewState>
    /** `pdfURL`, which both initialisers set. */
    const pdfUrl: Option<Url>
    const repository: PdfRepository

    /** `init(pdfURL:pdfRepository:)`: idle, at page 0 of 0. */
    constructor (pdfUrl: Option<Url>, repository: PdfRepository)
      ensures viewState == Idle && currentPage == 0 && totalPages == 0 && published == []
      ensures this.pdfUrl == pdfUrl && this.repository == repository
      ensures ValidPosition()
    {
      viewState := Idle;
      currentPage := 0;
      totalPages := 0;
      published := [];
      this.pdfUrl := pdfUrl;
      this.repository := repository;
    }

    /** The current page is a page of the document. */
    predicate PageInRange()
      reads this
    {
      0 <= currentPage < totalPages
    }

    /** The current page is a page of the document, or 0 before any page is known. */
    predicate ValidPosition()
      reads this
    {
      currentPage == 0 || PageInRange()
    }

    /** `isLoaded` */
    function IsLoaded(): (loaded: bool)
      reads this
      ensures loaded <==> viewState.Loaded?
    {
      match viewState
      case Loaded(_) => true
      case _ => false
    }

    /** `canGoToPreviousPage`: from a page of the document, whether the page before it is one too. */
    function CanGoToPreviousPage(): (can: bool)
      reads this
      ensures PageInRange() ==> (can <==> 0 <= currentPage - 1 < totalPages)
    {
      CanGoBack(currentPage)
    }

    /** `canGoToNextPage`: from a page of the document, whether the page after it is one too. */
    function CanGoToNextPage(): (can: bool)
      reads this
      ensures PageInRange() ==> (can <==> 0 <= currentPage + 1 < totalPages)
    {
      CanGoForward(currentPage, totalPages)
    }

    /** `pageDisplayText`: "No pages", or the one-based page and the page count. */
    function PageDisplayText(): string
      reads this
    {
      if totalPages <= 0 then NoPagesText
      else IntText(currentPage + 1) + " of " + IntText(totalPages)
    }

    /** The text says "No pages" exactly when there are none. */
    lemma NoPagesExactlyWhenEmpty()
      ensures PageDisplayText() == NoPagesText <==> totalPages <= 0
    {
      if totalPages > 0 {
        var n := currentPage + 1;
        var first := IntText(n);
        if n >= 0 {
          assert first == NatText(n) && IsDigitChar(first[0]);
        } else {
          assert first[0] == '-';
        }
        assert PageDisplayText()[0] == first[0];
      }
    }

    /** With a page in range, the text is "<page> of <count>" and both numbers read back. */
    lemma PageDisplayTextReadsBack() returns (page: string, count: string)
      requires 0 <= currentPage < totalPages <= INT_MAX
      ensures PageDisplayText() == page + " of " + count
      ensures ParseInt(page) == Some(currentPage + 1) && ParseInt(count) == Some(totalPages)
    {
      page, count := IntText(currentPage + 1), IntText(totalPages);
      ParseIntText(currentPage + 1);
      ParseIntText(totalPages);
    }

    /** `goToNextPage` */
    method GoToNextPage()
      modifies this`currentPage
      ensures currentPage == NextPage(old(currentPage), totalPages)
      ensures old(PageInRange()) ==> PageInRange()
      ensures old(ValidPosition()) ==> ValidPosition()
    {
      if !CanGoToNextPage() {
        return;
      }
      currentPage := currentPage + 1;
    }

    /** `goToPreviousPage` */
    method GoToPreviousPage()
      modifies this`currentPage
      ensures currentPage == PreviousPage(old(currentPage))
      ensures old(PageInRange()) ==> PageInRange()
      ensures old(ValidPosition()) ==> ValidPosition()
    {
      if !CanGoToPreviousPage() {
        return;
      }
      currentPage := currentPage - 1;
    }

    /**
     * `loadPDF()`: without a URL, failed; otherwise loading, then the
     * document through the repository: loaded at its first page, or failed
     * with the page position kept.
     */
    method LoadPdf(download: Result<PdfDocument, PdfViewerError>)
      modifies this`viewState, this`currentPage, this`totalPages, this`published, repository
      ensures pdfUrl.None? ==>
        && viewState == Failed(LoadFailedMessage)
        && published == old(published) + [viewState]
        && currentPage == old(currentPage) && totalPages == old(totalPages)
        && repository.cache == old(repository.cache) && repository.downloads == old(repository.downloads)
      ensures pdfUrl.Some? ==>
        var fetched := Fetch(old(repository.cache), pdfUrl.value, download);
        && repository.cache == fetched.cache
        && repository.downloads
           == old(repository.downloads) + (if Downloads(old(repository.cache), pdfUrl.value) then [pdfUrl.value] else [])
        && published == old(published) + [Loading, viewState]
        && (fetched.result.Success? ==>
              viewState == Loaded(fetched.result.value)
              && totalPages == fetched.result.value.pageCount && currentPage == 0)
        && (fetched.result.Failure? ==>
              viewState == Failed(LoadFailedMessage)
              && currentPage == old(currentPage) && totalPages == old(totalPages))
      ensures IsLoaded() ==> currentPage == 0 && totalPages >= 0
      ensures old(ValidPosition()) ==> ValidPosition()
    {
      if pdfUrl.None? {
        viewState := Failed(LoadFailedMessage);
        published := published + [viewState];
        return;
      }
      viewState := Loading;
      published := published + [viewState];
      var fetched := repository.FetchPdfDocument(pdfUrl.value, download);
      if fetched.Success? {
        viewState := Loaded(fetched.value);
        totalPages := fetched.value.pageCount;
        currentPage := 0;
      } else {
        viewState := Failed(LoadFailedMessage);
      }
      published := published + [viewState];
    }

    /** `refreshPDF()`: idle, then a load, which asks the repository again (and so hits its cache). */
    method RefreshPdf(download: Result<PdfDocument, PdfViewerError>)
      modifies this`viewState, this`currentPage, this`totalPages, this`published, repository
      ensures pdfUrl.None? ==>
        && viewState == Failed(LoadFailedMessage)
        && published == old(published) + [Idle, viewState]
        && currentPage == old(currentPage) && totalPages == old(totalPages)
        && repository.cache == old(repository.cache) && repository.downloads == old(repository.downloads)
      ensures pdfUrl.Some? ==>
        var fetched := Fetch(old(repository.cache), pdfUrl.value, download);
        && repository.cache == fetched.cache
        && repository.downloads
           == old(repository.downloads) + (if Downloads(old(repository.cache), pdfUrl.value) then [pdfUrl.value] else [])
        && published == old(published) + [Idle, Loading, viewState]
        && (fetched.result.Success? ==>
              viewState == Loaded(fetched.result.value)
              && totalPages == fetched.result.value.pageCount && currentPage == 0)
        && (fetched.result.Failure? ==>
              viewState == Failed(LoadFailedMessage)
              && currentPage == old(currentPage) && totalPages == old(totalPages))
      ensures old(ValidPosition()) ==> ValidPosition()
    {
      viewState := Idle;
      published := published + [viewState];
      LoadPdf(download);
    }
  }

  /**
   * Opening a three-page document and paging through it: loaded at the
   * first page, forward to the last, where going forward is no longer
   * allowed, and back again; a refresh then finds the document in the
   * repository's cache even when a download would fail.
   */
  method ViewThreePages(url: Url) {
    var repository := new PdfRepository();
    var viewer := new PdfViewerViewModel(Some(url), repository);
    assert viewer.PageDisplayText() == NoPagesText;

    var document := PdfDocument(0, 3);
    viewer.LoadPdf(Success(document));
    assert viewer.IsLoaded() && viewer.currentPage == 0 && viewer.totalPages == 3;
    assert !viewer.CanGoToPreviousPage();

    viewer.GoToNextPage();
    viewer.GoToNextPage();
    assert viewer.currentPage == 2 && !viewer.CanGoToNextPage();
    viewer.GoToNextPage();
    assert viewer.currentPage == 2;

    viewer.GoToPreviousPage();
    assert viewer.currentPage == 1;

    viewer.RefreshPdf(Failure(DownloadFailed));
    assert viewer.viewState == Loaded(document) && viewer.currentPage == 0;
    assert repository.downloads == [url];
  }
}

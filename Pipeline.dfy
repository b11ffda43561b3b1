/**
 * The sequencing of `main`: read the count from the seed page, plan the pages, fetch
 * pages `1..pages`, extract every page, flatten, export. Fetching is network I/O and is
 * a parameter here: `fetch(n)` is what downloading page `n` gave.
 */
module Pipeline {
  import opened Wrappers
  import opened Listing
  import opened Counting
  import opened Extraction
  import opened Exporting

  /** The outcome of downloading and parsing one page. */
  datatype Fetched = Fetched(blocks: seq<Block>) | FetchFailed

  datatype RunError = CountFailed(cause: CountError) | PageFetchFailed | ExtractionFailed(failure: Failure)

  /** What a run writes: the CSV rows on standard output and the records reported to the error log. */
  datatype Output = Output(csv: seq<Row>, errorLog: seq<Book>)

  /** `[i + 1 for i in range(pages)]`: the page numbers requested. */
  function RequestedPages(pages: int): (r: seq<int>)
    ensures |r| == if pages > 0 then pages else 0
    ensures forall i :: 0 <= i < |r| ==> r[i] == i + 1
  {
    if pages <= 0 then [] else RequestedPages(pages - 1) + [pages]
  }

  /**
   * `asyncio.gather` over the requested pages: the documents in request order, or nothing
   * at all when any single download failed.
   */
  function Gather(fetch: int -> Fetched, pages: seq<int>): (r: Option<seq<seq<Block>>>)
    ensures r.Some? <==> forall i :: 0 <= i < |pages| ==> fetch(pages[i]).Fetched?
    ensures r.Some? ==> |r.value| == |pages|
    ensures r.Some? ==> forall i :: 0 <= i < |pages| ==> r.value[i] == fetch(pages[i]).blocks
  {
    if |pages| == 0 then Some([])
    else
      var front := pages[..|pages| - 1];
      assert forall i :: 0 <= i < |front| ==> front[i] == pages[i];
      match Gather(fetch, front)
      case None => None
      case Some(docs) =>
        match fetch(pages[|pages| - 1])
        case FetchFailed => None
        case Fetched(blocks) => Some(docs + [blocks])
  }

  /** `get_books` over every page in order; the first page that raises aborts the run. */
  function ExtractPages(docs: seq<seq<Block>>): (r: Result<seq<seq<Book>>, Failure>)
    ensures r.Ok? <==> forall i :: 0 <= i < |docs| ==> ExtractPage(docs[i]).Ok?
    ensures r.Ok? ==> |r.value| == |docs|
    ensures r.Ok? ==> forall i :: 0 <= i < |docs| ==> ExtractPage(docs[i]) == Ok(r.value[i])
    ensures r.Err? ==> exists k :: 0 <= k < |docs| && ExtractPage(docs[k]) == Err(r.error)
                                   && forall i :: 0 <= i < k ==> ExtractPage(docs[i]).Ok?
  {
    if |docs| == 0 then Ok([])
    else
      var front := docs[..|docs| - 1];
      assert forall i :: 0 <= i < |front| ==> front[i] == docs[i];
      match ExtractPages(front)
      case Err(e) => Err(e)
      case Ok(pages) =>
        match ExtractPage(docs[|docs| - 1])
        case Err(e) => Err(e)
        case Ok(books) => Ok(pages + [books])
  }

  /** One run of `main`, given the seed page's count text and the page downloads. */
  function Run(countText: Option<string>, fetch: int -> Fetched): Result<Output, RunError>
  {
    match CountBooks(countText)
    case Err(e) => Err(CountFailed(e))
    case Ok(n) =>
      match Gather(fetch, RequestedPages(PageCount(n)))
      case None => Err(PageFetchFailed)
      case Some(docs) =>
        match ExtractPages(docs)
        case Err(e) => Err(ExtractionFailed(e))
        case Ok(perPage) =>
          var books := Flatten(perPage);
          Ok(Output([Header()] + ExportedRows(books), Skipped(books)))
  }

  /** Downloads that agree on the requested pages gather the same documents. */
  lemma {:induction false} GatherAgrees(f: int -> Fetched, g: int -> Fetched, pages: seq<int>)
    requires forall i :: 0 <= i < |pages| ==> f(pages[i]) == g(pages[i])
    ensures Gather(f, pages) == Gather(g, pages)
    decreases |pages|
  {
    if |pages| > 0 {
      var front := pages[..|pages| - 1];
      assert forall i :: 0 <= i < |front| ==> front[i] == pages[i];
      GatherAgrees(f, g, front);
    }
  }

  /** A run consults the downloads of pages `1..PageCount(n)` and of no other page. */
  lemma RunReadsPlannedPages(countText: Option<string>, f: int -> Fetched, g: int -> Fetched, n: int)
    requires CountBooks(countText) == Ok(n)
    requires forall k :: 1 <= k <= PageCount(n) ==> f(k) == g(k)
    ensures Run(countText, f) == Run(countText, g)
  {
    var pages := RequestedPages(PageCount(n));
    forall i | 0 <= i < |pages| ensures f(pages[i]) == g(pages[i]) {
      assert pages[i] == i + 1;
    }
    GatherAgrees(f, g, pages);
  }

  /** All or nothing: one failed download among the planned pages fails the run, and nothing is exported. */
  lemma RunFailsOnAnyFetch(countText: Option<string>, fetch: int -> Fetched, n: int, k: int)
    requires CountBooks(countText) == Ok(n)
    requires 1 <= k <= PageCount(n) && fetch(k).FetchFailed?
    ensures Run(countText, fetch) == Err(PageFetchFailed)
  {
    var pages := RequestedPages(PageCount(n));
    assert pages[k - 1] == k;
  }

  /** Without a readable count no page is downloaded: the run fails whatever the downloads would give. */
  lemma RunStopsWithoutCount(countText: Option<string>, f: int -> Fetched, g: int -> Fetched)
    requires CountBooks(countText).Err?
    ensures Run(countText, f) == Run(countText, g) == Err(CountFailed(CountBooks(countText).error))
  {
  }

  /**
   * The seed page "Encontramos 1.500 resultados" plans twenty pages, and the run depends
   * on the downloads of pages 1 to 20 only.
   */
  lemma RunScenario(countText: Option<string>, f: int -> Fetched, g: int -> Fetched)
    requires countText == Some("Encontramos 1.500 resultados")
    requires forall k :: 1 <= k <= 20 ==> f(k) == g(k)
    ensures |RequestedPages(PageCount(1500))| == 20
    ensures Run(countText, f) == Run(countText, g)
  {
    CountExample(countText.value);
    PageCountExample();
    RunReadsPlannedPages(countText, f, g, 1500);
  }
}

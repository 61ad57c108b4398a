/**
 * The decisions FileController of controllers/file_controller.go makes
 * before calling the service: the page and page size of a listing request,
 * and the rejection of an upload that carries no files. A query parameter
 * arrives as what `strconv.Atoi` makes of it.
 */
module Controller {
  import opened Wrappers
  import opened Models
  import opened IdGenerator
  import opened PageResults
  import opened Table
  import opened Uploads
  import opened Service

  /** The page used when none is given: `DefaultQuery("page", "1")`. */
  const DEFAULT_PAGE: int := 1

  /** The page size used when none is given or it is unusable: `DefaultQuery("page_size", "10")`. */
  const DEFAULT_PAGE_SIZE: int := 10

  /** The largest page size a request can obtain. */
  const MAX_PAGE_SIZE: int := 100

  /**
   * A query parameter: absent, or present with the result of `strconv.Atoi`
   * on its text (None when the text is not a decimal integer, or is one
   * outside the int64 range, which `strconv.Atoi` also refuses). So
   * `Given(Some(v))` with `v` outside the int64 range matches no request.
   */
  datatype QueryParam = Missing | Given(parsed: Option<int>)

  /**
   * What `strconv.Atoi(c.DefaultQuery(name, default))` yields: the default
   * text always parses, to `default`.
   */
  function Atoi(q: QueryParam, default: int): (n: Option<int>)
    ensures q.Missing? ==> n == Some(default)
    ensures q.Given? ==> n == q.parsed
  {
    match q
    case Missing => Some(default)
    case Given(parsed) => parsed
  }

  /**
   * `DefaultQuery` makes an absent parameter read as its default text: the
   * request without it is normalised as the one that gives the default.
   */
  lemma MissingActsAsDefault()
    ensures Atoi(Missing, DEFAULT_PAGE) == Atoi(Given(Some(DEFAULT_PAGE)), DEFAULT_PAGE)
    ensures PageFromQuery(Missing) == PageFromQuery(Given(Some(DEFAULT_PAGE)))
    ensures PageSizeFromQuery(Missing) == PageSizeFromQuery(Given(Some(DEFAULT_PAGE_SIZE)))
  {
  }

  /** The page of a listing request: a usable value is kept, anything else becomes 1. */
  function PageFromQuery(q: QueryParam): (page: int)
    ensures page >= 1
    ensures q.Missing? ==> page == DEFAULT_PAGE
    ensures q.Given? && q.parsed.Some? && q.parsed.value >= 1 ==> page == q.parsed.value
    ensures q.Given? && (q.parsed.None? || q.parsed.value < 1) ==> page == 1
  {
    var n := Atoi(q, DEFAULT_PAGE);
    if n.None? || n.value < 1 then 1 else n.value
  }

  /**
   * The page size of a listing request: an unusable value becomes 10, a
   * value above 100 is capped at 100, and anything else is kept.
   */
  function PageSizeFromQuery(q: QueryParam): (pageSize: int)
    ensures 1 <= pageSize <= MAX_PAGE_SIZE
    ensures q.Missing? ==> pageSize == DEFAULT_PAGE_SIZE
    ensures q.Given? && q.parsed.Some? && 1 <= q.parsed.value <= MAX_PAGE_SIZE ==> pageSize == q.parsed.value
    ensures q.Given? && q.parsed.Some? && q.parsed.value > MAX_PAGE_SIZE ==> pageSize == MAX_PAGE_SIZE
    ensures q.Given? && (q.parsed.None? || q.parsed.value < 1) ==> pageSize == DEFAULT_PAGE_SIZE
  {
    var n := Atoi(q, DEFAULT_PAGE_SIZE);
    var size := if n.None? || n.value < 1 then DEFAULT_PAGE_SIZE else n.value;
    if size > MAX_PAGE_SIZE then MAX_PAGE_SIZE else size
  }

  /** Normalising an already normalised page or page size changes nothing. */
  lemma NormalisationIdempotent(pageQ: QueryParam, sizeQ: QueryParam)
    ensures PageFromQuery(Given(Some(PageFromQuery(pageQ)))) == PageFromQuery(pageQ)
    ensures PageSizeFromQuery(Given(Some(PageSizeFromQuery(sizeQ)))) == PageSizeFromQuery(sizeQ)
  {
  }

  /**
   * Whatever the query, a listing response holds at most 100 items, newest
   * first, and reports every matching record in its total.
   */
  lemma ListResponseBounded(rows: seq<FileInfo>, pageQ: QueryParam, sizeQ: QueryParam, filter: string)
    ensures var p := ListPage(rows, PageFromQuery(pageQ), PageSizeFromQuery(sizeQ), filter);
      |p.items| <= MAX_PAGE_SIZE && p.total == |ListedRows(rows, filter)| &&
      forall i, j :: 0 <= i < j < |p.items| ==> p.items[i].uploadDate >= p.items[j].uploadDate
  {
    ListPageShape(rows, PageFromQuery(pageQ), PageSizeFromQuery(sizeQ), filter);
    ListPageNewestFirst(rows, PageFromQuery(pageQ), PageSizeFromQuery(sizeQ), filter);
  }

  /**
   * The model's offset is an unbounded integer, while Go computes
   * `(page - 1) * pageSize` in 64 bits. The two agree whenever the page is at
   * most `INT64_MAX / 100 + 1`; beyond that Go's product can wrap.
   */
  lemma OffsetFitsInt64(pageQ: QueryParam, sizeQ: QueryParam)
    requires pageQ.Given? && pageQ.parsed.Some? ==> pageQ.parsed.value <= INT64_MAX / MAX_PAGE_SIZE + 1
    ensures PageOffset(PageFromQuery(pageQ), PageSizeFromQuery(sizeQ)) <= INT64_MAX
  {
    var page, size := PageFromQuery(pageQ), PageSizeFromQuery(sizeQ);
    MulMonotone(page - 1, INT64_MAX / MAX_PAGE_SIZE, size);
    MulMonotone(size, MAX_PAGE_SIZE, INT64_MAX / MAX_PAGE_SIZE);
  }

  /**
   * A page past that bound does wrap: with page size 100, page
   * `INT64_MAX / 100 + 2` has an offset beyond the 64-bit range.
   */
  lemma LargePageOffsetOverflows()
    ensures PageOffset(INT64_MAX / MAX_PAGE_SIZE + 2, MAX_PAGE_SIZE) > INT64_MAX
  {
  }

  /** What the upload handler answers. */
  datatype UploadResponse =
    | NoFiles                              // 400: the form has no "files" entries
    | UploadFailed(error: UploadError)     // 500: the service returned an error
    | Uploaded(files: seq<FileInfoDTO>)    // 200: the DTOs of the stored files

  /** What the listing handler answers. */
  datatype ListResponse =
    | ListFailed                           // 500: the service returned an error
    | ListedPage(page: PageResult<FileInfoDTO>)

  /** FileController: the handlers over one service. */
  class FileController {
    const fileService: FileService

    constructor (fileService: FileService)
      ensures this.fileService == fileService
    {
      this.fileService := fileService;
    }

    /**
     * UploadFiles: an upload without files is rejected before the service is
     * reached, leaving it untouched; otherwise the service's outcome is passed on.
     */
    method UploadFiles(files: seq<UploadFile>, mkdirFails: bool, uuids: seq<string>, saveFails: set<nat>,
                       clock: seq<Int64>, dates: seq<int>, insertFails: set<nat>)
      returns (response: UploadResponse)
      requires fileService.Valid() && Consistent(Batch(files, uuids, saveFails, clock, dates, insertFails))
      modifies fileService, fileService.gen
      ensures fileService.Valid()
      ensures files == [] ==> response == NoFiles && fileService.Snapshot() == old(fileService.Snapshot())
      ensures files != [] ==>
        var run := Upload(fileService.upload, old(fileService.Snapshot()),
                          Batch(files, uuids, saveFails, clock, dates, insertFails), mkdirFails);
        fileService.Snapshot() == run.store &&
        (run.result.Success? ==> response == Uploaded(run.result.value)) &&
        (run.result.Failure? ==> response == UploadFailed(run.result.error))
    {
      if |files| == 0 {
        return NoFiles;
      }
      var result, done := fileService.UploadFiles(files, mkdirFails, uuids, saveFails, clock, dates, insertFails);
      if result.Failure? {
        return UploadFailed(result.error);
      }
      return Uploaded(result.value);
    }

    /**
     * GetFileList: normalises the page and page size, so that the service's
     * offset is never negative and its page count never divides by zero, and
     * returns the page the service computes.
     */
    method GetFileList(pageQ: QueryParam, sizeQ: QueryParam, filter: string) returns (response: ListResponse)
      ensures response == ListedPage(ListPage(fileService.rows, PageFromQuery(pageQ), PageSizeFromQuery(sizeQ), filter))
    {
      var page := PageFromQuery(pageQ);
      var pageSize := PageSizeFromQuery(sizeQ);
      var result, err := fileService.GetFileList(page, pageSize, filter);
      response := if err.Some? then ListFailed else ListedPage(result);
    }
  }
}

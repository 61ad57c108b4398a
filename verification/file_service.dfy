/**
 * FileService of service/file_service.go: upload, download, listing, delete
 * by ids and the expiry sweep, over the `fileInfo` table (`rows`) and the
 * upload directory (`blobs`, file path to content).
 *
 * What the code gets from its environment is passed in: the clock readings
 * of the id generator and of `time.Now()`, the UUIDs, and which file-system
 * or store operations fail.
 */
module Service {
  import opened Wrappers
  import opened Models
  import opened IdGenerator
  import opened PageResults
  import opened FileNames
  import opened Validation
  import opened Table
  import opened Uploads

  /** One day in milliseconds. */
  const DAY_MS: int := 24 * 60 * 60 * 1000

  /** The retention period of CleanExpiredFiles: seven days, in milliseconds. */
  const RETENTION_MS: int := 7 * DAY_MS

  /** DeleteFilesByIds queries and updates at most this many ids at a time. */
  const BATCH_SIZE: nat := 500

  /** Why DownloadFile gives up. */
  datatype DownloadError =
    | NotFound                             // no active record with that name
    | MissingOnDisk                        // the record's file is gone; the record is retired

  /**
   * The page GetFileList returns: the active records matching the filter,
   * newest first, from offset `(page - 1) * pageSize`, at most `pageSize` of
   * them, with the number of matching records as the total.
   */
  function ListPage(rows: seq<FileInfo>, page: int, pageSize: int, filter: string): (p: PageResult<FileInfoDTO>)
    requires page >= 1 && pageSize >= 1
    ensures p.page == page && p.pageSize == pageSize && p.total == |ListedRows(rows, filter)|
    ensures |p.items| <= pageSize
  {
    var listed := ListedRows(rows, filter);
    NewPageResult(ToDTOs(Window(OrderByDateDesc(listed), PageOffset(page, pageSize), pageSize)), |listed|, page, pageSize)
  }

  /** The offset of a page: the records on the pages before it. */
  function PageOffset(page: int, pageSize: int): (offset: nat)
    requires page >= 1 && pageSize >= 1
    ensures offset % pageSize == 0 && offset / pageSize == page - 1
  {
    DivisionUnique((page - 1) * pageSize, pageSize, page - 1, 0);
    (page - 1) * pageSize
  }

  /**
   * The size of a page: at most `pageSize` items, short only at the end of
   * the listing, with the number of matching records as the total.
   */
  lemma ListPageShape(rows: seq<FileInfo>, page: int, pageSize: int, filter: string)
    requires page >= 1 && pageSize >= 1
    ensures var p := ListPage(rows, page, pageSize, filter);
      |p.items| <= pageSize && p.total == |ListedRows(rows, filter)| &&
      (|p.items| == pageSize || PageOffset(page, pageSize) + |p.items| >= p.total)
  {
    var listed := ListedRows(rows, filter);
    var ordered := OrderByDateDesc(listed);
    assert |ordered| == |listed| by {
      assert |multiset(ordered)| == |multiset(listed)|;
    }
    var w := Window(ordered, PageOffset(page, pageSize), pageSize);
    assert |ToDTOs(w)| == |w|;
  }

  /** The page count covers the matching records, with no empty trailing page. */
  lemma ListPageCount(rows: seq<FileInfo>, page: int, pageSize: int, filter: string)
    requires page >= 1 && pageSize >= 1
    ensures var p := ListPage(rows, page, pageSize, filter);
      p.totalPages * pageSize >= p.total &&
      (p.total > 0 ==> (p.totalPages - 1) * pageSize < p.total)
  {
    var listed := ListedRows(rows, filter);
    var items := ToDTOs(Window(OrderByDateDesc(listed), PageOffset(page, pageSize), pageSize));
    var p := ListPage(rows, page, pageSize, filter);
    assert p == NewPageResult(items, |listed|, page, pageSize);
    TotalPagesBounds(items, |listed|, page, pageSize);
  }

  /** The items of a page are the listed records at the page's offset, in order. */
  lemma ListPageItems(rows: seq<FileInfo>, page: int, pageSize: int, filter: string)
    requires page >= 1 && pageSize >= 1
    ensures var p := ListPage(rows, page, pageSize, filter);
      var ordered := OrderByDateDesc(ListedRows(rows, filter));
      forall i :: 0 <= i < |p.items| ==>
        PageOffset(page, pageSize) + i < |ordered| && p.items[i] == ToDTO(ordered[PageOffset(page, pageSize) + i])
  {
    var ordered := OrderByDateDesc(ListedRows(rows, filter));
    ToDTOsAt(Window(ordered, PageOffset(page, pageSize), pageSize));
  }

  /** A page lists its items newest first. */
  lemma ListPageNewestFirst(rows: seq<FileInfo>, page: int, pageSize: int, filter: string)
    requires page >= 1 && pageSize >= 1
    ensures var p := ListPage(rows, page, pageSize, filter);
      forall i, j :: 0 <= i < j < |p.items| ==> p.items[i].uploadDate >= p.items[j].uploadDate
  {
    var ordered := OrderByDateDesc(ListedRows(rows, filter));
    var offset := PageOffset(page, pageSize);
    var p := ListPage(rows, page, pageSize, filter);
    OrderByDateDescSorts(ListedRows(rows, filter));
    ListPageItems(rows, page, pageSize, filter);
    forall i, j | 0 <= i < j < |p.items|
      ensures p.items[i].uploadDate >= p.items[j].uploadDate
    {
      assert ordered[offset + i].uploadDate >= ordered[offset + j].uploadDate;
    }
  }

  /** Every item of a page is an active record of the table whose name contains the filter. */
  lemma ListPageMember(rows: seq<FileInfo>, page: int, pageSize: int, filter: string, i: nat)
    requires page >= 1 && pageSize >= 1
    requires i < |ListPage(rows, page, pageSize, filter).items|
    ensures exists r :: r in rows && Listed(r, filter) && ListPage(rows, page, pageSize, filter).items[i] == ToDTO(r)
  {
    var listed := ListedRows(rows, filter);
    var ordered := OrderByDateDesc(listed);
    OrderByDateDescSorts(listed);
    ListPageItems(rows, page, pageSize, filter);
    var r := ordered[PageOffset(page, pageSize) + i];
    assert r in multiset(ordered);
    assert r in multiset(listed);
    assert r in rows && Listed(r, filter) && ListPage(rows, page, pageSize, filter).items[i] == ToDTO(r);
  }

  /** Fifteen matching records at ten per page: the first page holds ten of them, and there are two pages. */
  lemma FirstOfFifteen(rows: seq<FileInfo>)
    requires |ListedRows(rows, "")| == 15
    ensures var p := ListPage(rows, 1, 10, "");
      |p.items| == 10 && p.total == 15 && p.totalPages == 2
  {
    var listed := ListedRows(rows, "");
    var items := ToDTOs(Window(OrderByDateDesc(listed), PageOffset(1, 10), 10));
    ListPageShape(rows, 1, 10, "");
    FifteenRecordsMakeTwoPages(items);
  }

  /**
   * The sweep's seven-day boundary: an active record uploaded eight days
   * before `now`, whose file can be removed, is retired and its file
   * removed; one uploaded six days before is left as it was.
   */
  lemma SweepAgeBoundary(rows: seq<FileInfo>, now: int, fails: set<string>, k: nat)
    requires UniqueIds(rows) && k < |rows|
    requires rows[k].status == ACTIVE && rows[k].filePath !in fails
    ensures var swept := SweptIds(rows, OlderThan(now - RETENTION_MS), fails);
      (rows[k].uploadDate == now - 8 * DAY_MS ==>
        SetRemoved(rows, swept)[k] == Removed(rows[k]) &&
        rows[k].filePath in SweptPaths(rows, OlderThan(now - RETENTION_MS), fails)) &&
      (rows[k].uploadDate == now - 6 * DAY_MS ==> SetRemoved(rows, swept)[k] == rows[k])
  {
    SweepChangesExactlySwept(rows, OlderThan(now - RETENTION_MS), fails);
    assert rows[k] in rows;
  }

  /** The set of ids a request lists. */
  function Elems(ids: seq<nat>): (s: set<nat>)
    ensures forall x :: x in s <==> x in ids
  {
    set x | x in ids
  }

  /** The ids of a request split at `i` are those before and those from `i` on. */
  lemma ElemsSplit(ids: seq<nat>, i: nat, end: nat)
    requires i <= end <= |ids|
    ensures Elems(ids[..end]) == Elems(ids[..i]) + Elems(ids[i..end])
  {
    forall x | x in ids[..end]
      ensures x in ids[..i] || x in ids[i..end]
    {
      var k :| 0 <= k < end && ids[k] == x;
      if k >= i {
        assert ids[i..end][k - i] == x;
      }
    }
  }

  /** Walking a query result one row further adds that row when its removal does not fail. */
  lemma RemovableSnoc(found: seq<FileInfo>, j: nat, fails: set<string>)
    requires j < |found|
    ensures RemovableIds(found[..j + 1], fails) ==
      RemovableIds(found[..j], fails) + (if found[j].filePath in fails then {} else {found[j].id})
    ensures RemovablePaths(found[..j + 1], fails) ==
      RemovablePaths(found[..j], fails) + (if found[j].filePath in fails then {} else {found[j].filePath})
  {
    assert found[..j + 1] == found[..j] + [found[j]];
  }

  /**
   * One record of the expiry loop: removing its file and retiring it, or
   * skipping it when the removal fails, extends the walk by that record.
   */
  lemma CleanStep(rows0: seq<FileInfo>, blobs0: map<string, seq<byte>>, expired: seq<FileInfo>, j: nat, fails: set<string>)
    requires WellFormed(rows0) && j < |expired|
    ensures var rows := SetRemoved(rows0, RemovableIds(expired[..j], fails));
      var blobs := blobs0 - RemovablePaths(expired[..j], fails);
      var info := expired[j];
      (info.filePath in fails ==>
        rows == SetRemoved(rows0, RemovableIds(expired[..j + 1], fails)) &&
        blobs == blobs0 - RemovablePaths(expired[..j + 1], fails)) &&
      (info.filePath !in fails ==>
        SetRemoved(rows, {info.id}) == SetRemoved(rows0, RemovableIds(expired[..j + 1], fails)) &&
        blobs - {info.filePath} == blobs0 - RemovablePaths(expired[..j + 1], fails))
  {
    RemovableSnoc(expired, j, fails);
    SetRemovedTwice(rows0, RemovableIds(expired[..j], fails), {expired[j].id});
  }

  /**
   * One batch of DeleteFilesByIds on the table: after the ids `done` of
   * earlier batches have been swept, sweeping the batch `batch` leaves the
   * table of a sweep over both, and the flipped counts add up.
   */
  lemma DeleteBatchRows(rows0: seq<FileInfo>, done: set<nat>, batch: set<nat>, fails: set<string>)
    requires WellFormed(rows0)
    ensures var flipped := SweptIds(rows0, ByIds(done), fails);
      var rows := SetRemoved(rows0, flipped);
      var added := SweptIds(rows, ByIds(batch), fails);
      SetRemoved(rows, added) == SetRemoved(rows0, SweptIds(rows0, ByIds(done + batch), fails)) &&
      |flipped| + |added| == |SweptIds(rows0, ByIds(done + batch), fails)|
  {
    var flipped := SweptIds(rows0, ByIds(done), fails);
    var rows := SetRemoved(rows0, flipped);
    var added := SweptIds(rows, ByIds(batch), fails);
    BatchStepIds(rows0, done, batch, fails);
    SetRemovedTwice(rows0, flipped, added);
  }

  /** The same batch step on the upload directory. */
  lemma DeleteBatchBlobs(rows0: seq<FileInfo>, blobs0: map<string, seq<byte>>, done: set<nat>, batch: set<nat>, fails: set<string>)
    requires WellFormed(rows0)
    ensures var rows := SetRemoved(rows0, SweptIds(rows0, ByIds(done), fails));
      (blobs0 - SweptPaths(rows0, ByIds(done), fails)) - SweptPaths(rows, ByIds(batch), fails) ==
        blobs0 - SweptPaths(rows0, ByIds(done + batch), fails)
  {
    BatchStepPaths(rows0, done, batch, fails);
  }

  /** A delete that lists no ids changes nothing and counts nothing. */
  lemma DeleteNothing(rows: seq<FileInfo>, blobs: map<string, seq<byte>>, fails: set<string>)
    ensures SweptIds(rows, ByIds({}), fails) == {}
    ensures SetRemoved(rows, {}) == rows
    ensures blobs - SweptPaths(rows, ByIds({}), fails) == blobs
  {
    assert SweptPaths(rows, ByIds({}), fails) == {};
  }

  /**
   * The state of DeleteFilesByIds once the first `n` ids of the request are
   * processed: the table, the directory and the count of a sweep over them.
   */
  predicate DeletedUpTo(rows0: seq<FileInfo>, blobs0: map<string, seq<byte>>, ids: seq<nat>, n: nat, fails: set<string>,
                        rows: seq<FileInfo>, blobs: map<string, seq<byte>>, count: nat)
    requires n <= |ids|
  {
    rows == SetRemoved(rows0, SweptIds(rows0, ByIds(Elems(ids[..n])), fails)) &&
    blobs == blobs0 - SweptPaths(rows0, ByIds(Elems(ids[..n])), fails) &&
    count == |SweptIds(rows0, ByIds(Elems(ids[..n])), fails)|
  }

  /** Nothing is processed before the first batch. */
  lemma DeletedUpToStart(rows0: seq<FileInfo>, blobs0: map<string, seq<byte>>, ids: seq<nat>, fails: set<string>)
    ensures DeletedUpTo(rows0, blobs0, ids, 0, fails, rows0, blobs0, 0)
  {
    assert Elems(ids[..0]) == {};
    DeleteNothing(rows0, blobs0, fails);
  }

  /**
   * Sweeping the batch of ids `i..end` moves the state of a delete over the
   * ids before `i` to that of a delete over the ids before `end`.
   */
  lemma DeleteAdvance(rows0: seq<FileInfo>, blobs0: map<string, seq<byte>>, ids: seq<nat>, i: nat, end: nat, fails: set<string>,
                      rows: seq<FileInfo>, blobs: map<string, seq<byte>>, count: nat)
    requires WellFormed(rows0) && i <= end <= |ids|
    requires DeletedUpTo(rows0, blobs0, ids, i, fails, rows, blobs, count)
    ensures var added := SweptIds(rows, ByIds(Elems(ids[i..end])), fails);
      DeletedUpTo(rows0, blobs0, ids, end, fails, SetRemoved(rows, added),
                  blobs - SweptPaths(rows, ByIds(Elems(ids[i..end])), fails), count + |added|)
  {
    ElemsSplit(ids, i, end);
    DeleteBatchRows(rows0, Elems(ids[..i]), Elems(ids[i..end]), fails);
    DeleteBatchBlobs(rows0, blobs0, Elems(ids[..i]), Elems(ids[i..end]), fails);
  }

  /**
   * Collecting the ids of a keyed query result one by one never repeats an
   * id, so the list of collected ids is as long as the set.
   */
  lemma DeleteCollects(found: seq<FileInfo>, j: nat, collected: seq<nat>, fails: set<string>)
    requires UniqueIds(found) && j < |found|
    requires Elems(collected) == RemovableIds(found[..j], fails)
    requires |Elems(collected)| == |collected|
    ensures Elems(collected + [found[j].id]) == Elems(collected) + {found[j].id}
    ensures |Elems(collected + [found[j].id])| == |collected| + 1
  {
  }

  /** Walking one record further removes its file too, unless that removal fails. */
  lemma RemovedPathsStep(blobs0: map<string, seq<byte>>, found: seq<FileInfo>, j: nat, fails: set<string>)
    requires j < |found|
    ensures var path := found[j].filePath;
      (path in fails ==> blobs0 - RemovablePaths(found[..j], fails) == blobs0 - RemovablePaths(found[..j + 1], fails)) &&
      (path !in fails ==> (blobs0 - RemovablePaths(found[..j], fails)) - {path} == blobs0 - RemovablePaths(found[..j + 1], fails))
  {
    RemovableSnoc(found, j, fails);
  }

  /**
   * One record of a delete batch: collecting its id, or skipping it when the
   * removal of its file fails, extends the walk by that record.
   */
  lemma DeleteStep(found: seq<FileInfo>, j: nat, collected: seq<nat>, fails: set<string>)
    requires UniqueIds(found) && j < |found|
    requires Elems(collected) == RemovableIds(found[..j], fails)
    requires |Elems(collected)| == |collected|
    ensures found[j].filePath in fails ==> Elems(collected) == RemovableIds(found[..j + 1], fails)
    ensures found[j].filePath !in fails ==>
      Elems(collected + [found[j].id]) == RemovableIds(found[..j + 1], fails) &&
      |Elems(collected + [found[j].id])| == |collected + [found[j].id]|
  {
    RemovableSnoc(found, j, fails);
    if found[j].filePath !in fails {
      DeleteCollects(found, j, collected, fails);
    }
  }

  /**
   * The service state: the `fileInfo` rows in insertion order and the
   * contents of the upload directory, with the configuration and the shared
   * id generator it reads.
   */
  class FileService {
    var rows: seq<FileInfo>
    var blobs: map<string, seq<byte>>
    const gen: IDGenerator
    const upload: UploadConfig

    /** Ids are keys and every status is 0 or 1. */
    ghost predicate Valid()
      reads this
    {
      WellFormed(rows)
    }

    /** What UploadFiles reads and changes: the table, the upload directory and the generator. */
    function Snapshot(): Store
      reads this, gen
    {
      Store(rows, blobs, gen.State())
    }

    constructor (gen: IDGenerator, upload: UploadConfig, rows: seq<FileInfo>, blobs: map<string, seq<byte>>)
      requires WellFormed(rows)
      ensures Valid()
      ensures this.gen == gen && this.upload == upload && this.rows == rows && this.blobs == blobs
    {
      this.gen := gen;
      this.upload := upload;
      this.rows := rows;
      this.blobs := blobs;
    }

    /**
     * saveFile: writes the content under the stored name built from the
     * original name and `uuid`, unless opening, creating or copying fails.
     */
    method SaveFile(file: UploadFile, uuid: string, fails: bool) returns (r: Result<string, UploadError>)
      requires IsUuidText(uuid)
      modifies this
      ensures rows == old(rows)
      ensures fails ==> r == Failure(SaveFailed) && blobs == old(blobs)
      ensures !fails ==> (r == Success(StoredName(file.filename, uuid)) &&
        blobs == old(blobs)[Join(upload.uploadPath, StoredName(file.filename, uuid)) := file.content])
    {
      if fails {
        return Failure(SaveFailed);
      }
      var fileName := StoredName(file.filename, uuid);
      var filePath := Join(upload.uploadPath, fileName);
      blobs := blobs[filePath := file.content];
      return Success(fileName);
    }

    /** `DB.Create`: appends the row unless its id is taken or the store fails. */
    method Insert(row: FileInfo, fails: bool) returns (ok: bool)
      requires Valid() && row.status == ACTIVE
      modifies this
      ensures Valid() && blobs == old(blobs)
      ensures ok <==> !fails && row.id !in Ids(old(rows))
      ensures ok ==> rows == old(rows) + [row]
      ensures !ok ==> rows == old(rows)
    {
      if fails || row.id in Ids(rows) {
        return false;
      }
      forall i | 0 <= i < |rows|
        ensures rows[i].id != row.id
      {
        assert rows[i] in rows;
      }
      rows := rows + [row];
      return true;
    }

    /**
     * UploadFiles. File `k` is validated, saved under `uuids[k]`, given the
     * id the generator issues at `clock[k]`, dated `dates[k]` and inserted;
     * the first failure ends the call. The outcome, the new state and the
     * number `done` of files inserted are those `Upload` describes.
     */
    method UploadFiles(files: seq<UploadFile>, mkdirFails: bool, uuids: seq<string>, saveFails: set<nat>,
                       clock: seq<Int64>, dates: seq<int>, insertFails: set<nat>)
      returns (result: Result<seq<FileInfoDTO>, UploadError>, ghost done: nat)
      requires Valid() && Consistent(Batch(files, uuids, saveFails, clock, dates, insertFails))
      modifies this, gen
      ensures Valid()
      ensures UploadRun(result, Snapshot(), done) ==
        Upload(upload, old(Snapshot()), Batch(files, uuids, saveFails, clock, dates, insertFails), mkdirFails)
    {
      ghost var b := Batch(files, uuids, saveFails, clock, dates, insertFails);
      ghost var run := Upload(upload, Snapshot(), b, mkdirFails);
      if mkdirFails {
        return Failure(DirectoryFailed), 0;
      }
      var results: seq<FileInfoDTO> := [];
      var k := 0;
      while k < |files|
        invariant 0 <= k <= |files|
        invariant Valid()
        invariant UploadFrom(upload, Snapshot(), b, k, results) == run
      {
        ghost var before := Snapshot();
        StepEffects(upload, before, b, k);
        StepOutcome(upload, before, b, k);
        var invalid := ValidateFile(files[k], upload.maxSize, upload.allowedTypes);
        if invalid.Some? {
          return Failure(Invalid(invalid.value)), k;
        }
        var saved := SaveFile(files[k], uuids[k], k in saveFails);
        if saved.Failure? {
          return Failure(SaveFailed), k;
        }
        var id := gen.GenerateID(clock[k]);
        var row := FileInfo(id, saved.value, Join(upload.uploadPath, saved.value), files[k].size, ACTIVE, dates[k]);
        assert row == RecordFor(b, upload.uploadPath, before.gen, k);
        var ok := Insert(row, k in insertFails);
        if !ok {
          return Failure(InsertFailed), k;
        }
        results := results + [ToDTO(row)];
        k := k + 1;
      }
      return Success(results), k;
    }

    /**
     * DownloadFile: the content of the earliest active record named
     * `fileName`. When its file is gone from disk the record is retired
     * (status 1) and the call fails; nothing else changes.
     */
    method DownloadFile(fileName: string) returns (r: Result<seq<byte>, DownloadError>)
      requires Valid()
      modifies this
      ensures Valid() && blobs == old(blobs) && StatusOnlyRises(old(rows), rows)
      ensures FindActive(old(rows), fileName).None? ==> r == Failure(NotFound) && rows == old(rows)
      ensures FindActive(old(rows), fileName).Some? ==>
        var k := FindActive(old(rows), fileName).value;
        var path := old(rows)[k].filePath;
        (path in blobs ==> r == Success(blobs[path]) && rows == old(rows)) &&
        (path !in blobs ==> r == Failure(MissingOnDisk) && rows == old(rows)[k := Removed(old(rows)[k])])
    {
      var found := FindActive(rows, fileName);
      if found.None? {
        return Failure(NotFound);
      }
      var k := found.value;
      var info := rows[k];
      if info.filePath !in blobs {
        SetRemovedOne(rows, k);
        SetRemovedOnlyRises(rows, {info.id});
        rows := SetRemoved(rows, {info.id});
        return Failure(MissingOnDisk);
      }
      return Success(blobs[info.filePath]);
    }

    /**
     * GetFileList: one page of the active records whose name contains
     * `filter`, newest first. The error it returns is always nil.
     */
    method GetFileList(page: int, pageSize: int, filter: string) returns (result: PageResult<FileInfoDTO>, err: Option<string>)
      requires page >= 1 && pageSize >= 1
      ensures result == ListPage(rows, page, pageSize, filter)
      ensures err == None
    {
      var listed := ListedRows(rows, filter);
      var found := Window(OrderByDateDesc(listed), PageOffset(page, pageSize), pageSize);
      var dtos: seq<FileInfoDTO> := [];
      for i := 0 to |found|
        invariant dtos == ToDTOs(found[..i])
      {
        assert found[..i + 1][..i] == found[..i];
        dtos := dtos + [ToDTO(found[i])];
      }
      assert found[..|found|] == found;
      result := NewPageResult(dtos, |listed|, page, pageSize);
      err := None;
    }

    /**
     * CleanExpiredFiles at instant `now` (milliseconds): every active record
     * uploaded strictly before `now` minus seven days has its file removed
     * and is retired, except those whose removal fails, which stay active.
     */
    method CleanExpiredFiles(now: int, removeFails: set<string>)
      requires Valid()
      modifies this
      ensures Valid()
      ensures rows == SetRemoved(old(rows), SweptIds(old(rows), OlderThan(now - RETENTION_MS), removeFails))
      ensures blobs == old(blobs) - SweptPaths(old(rows), OlderThan(now - RETENTION_MS), removeFails)
    {
      var expiry := now - RETENTION_MS;
      var expired := Query(rows, OlderThan(expiry));
      ghost var rows0 := rows;
      ghost var blobs0 := blobs;
      assert expired[..0] == [];
      for j := 0 to |expired|
        invariant Valid()
        invariant rows == SetRemoved(rows0, RemovableIds(expired[..j], removeFails))
        invariant blobs == blobs0 - RemovablePaths(expired[..j], removeFails)
      {
        var info := expired[j];
        CleanStep(rows0, blobs0, expired, j, removeFails);
        if info.filePath in removeFails {
          continue;
        }
        blobs := blobs - {info.filePath};
        SetRemovedOnlyRises(rows, {info.id});
        rows := SetRemoved(rows, {info.id});
      }
      assert expired[..|expired|] == expired;
      QueryRemovable(rows0, OlderThan(expiry), removeFails);
    }

    /**
     * The inner loop of DeleteFilesByIds over the records one batch query
     * found: removes each record's file and collects its id, skipping the
     * records whose removal fails.
     */
    method RemoveBatchFiles(fileInfos: seq<FileInfo>, removeFails: set<string>) returns (validIds: seq<nat>)
      requires UniqueIds(fileInfos)
      modifies this
      ensures rows == old(rows)
      ensures blobs == old(blobs) - RemovablePaths(fileInfos, removeFails)
      ensures Elems(validIds) == RemovableIds(fileInfos, removeFails) && |validIds| == |Elems(validIds)|
    {
      ghost var blobs0 := blobs;
      validIds := [];
      for j := 0 to |fileInfos|
        invariant rows == old(rows)
        invariant Elems(validIds) == RemovableIds(fileInfos[..j], removeFails)
        invariant |Elems(validIds)| == |validIds|
        invariant blobs == blobs0 - RemovablePaths(fileInfos[..j], removeFails)
      {
        var info := fileInfos[j];
        DeleteStep(fileInfos, j, validIds, removeFails);
        RemovedPathsStep(blobs0, fileInfos, j, removeFails);
        if info.filePath in removeFails {
          continue;
        }
        blobs := blobs - {info.filePath};
        validIds := validIds + [info.id];
      }
      assert fileInfos[..|fileInfos|] == fileInfos;
    }

    /**
     * DeleteFilesByIds: in batches of at most 500 ids, removes the files of
     * the active records listed and retires those records, skipping any
     * record whose file cannot be removed. `count` is the number of records
     * retired.
     */
    method DeleteFilesByIds(ids: seq<nat>, removeFails: set<string>) returns (count: nat)
      requires Valid()
      modifies this
      ensures Valid()
      ensures rows == SetRemoved(old(rows), SweptIds(old(rows), ByIds(Elems(ids)), removeFails))
      ensures blobs == old(blobs) - SweptPaths(old(rows), ByIds(Elems(ids)), removeFails)
      ensures count == |SweptIds(old(rows), ByIds(Elems(ids)), removeFails)| <= |Elems(ids)|
    {
      DeleteCountBound(rows, Elems(ids), removeFails);
      if |ids| == 0 {
        DeletedUpToStart(rows, blobs, ids, removeFails);
        assert ids[..0] == ids;
        return 0;
      }
      ghost var rows0 := rows;
      ghost var blobs0 := blobs;
      count := 0;
      var i := 0;
      ghost var upto := 0;
      DeletedUpToStart(rows0, blobs0, ids, removeFails);
      while i < |ids|
        invariant 0 <= upto <= |ids| && (upto == i || (upto == |ids| && i > |ids|))
        invariant Valid()
        invariant DeletedUpTo(rows0, blobs0, ids, upto, removeFails, rows, blobs, count)
        decreases |ids| - i
      {
        var end := i + BATCH_SIZE;
        if end > |ids| {
          end := |ids|;
        }
        var batchIds := ids[i..end];
        ghost var added := SweptIds(rows, ByIds(Elems(batchIds)), removeFails);
        ghost var blobsLeft := blobs - SweptPaths(rows, ByIds(Elems(batchIds)), removeFails);
        DeleteAdvance(rows0, blobs0, ids, i, end, removeFails, rows, blobs, count);
        var fileInfos := Query(rows, ByIds(Elems(batchIds)));
        QueryUniqueIds(rows, ByIds(Elems(batchIds)));
        QueryRemovable(rows, ByIds(Elems(batchIds)), removeFails);
        var validIds := RemoveBatchFiles(fileInfos, removeFails);
        assert Elems(validIds) == added && blobs == blobsLeft;
        if |validIds| > 0 {
          SetRemovedOnlyRises(rows, Elems(validIds));
          rows := SetRemoved(rows, Elems(validIds));
          count := count + |validIds|;
        } else {
          assert validIds == [] && added == {};
          DeleteNothing(rows, blobs, removeFails);
          assert rows == SetRemoved(rows, added) && count == count + |added|;
        }
        i := i + BATCH_SIZE;
        upto := end;
      }
      assert ids[..upto] == ids;
    }
  }
}

/**
 * The upload loop of `UploadFiles` (service/file_service.go, lines 25-68)
 * as a function of the service state and of what the environment does:
 * the UUIDs saveFile draws, which saves and inserts fail, the clock
 * readings of the id generator and the upload dates. The method in
 * file_service.dfy is proved to compute exactly `Upload`; the lemmas here
 * say what `Upload` does.
 */
module Uploads {
  import opened Wrappers
  import opened Models
  import opened IdGenerator
  import opened FileNames
  import opened Validation
  import opened Table

  /** The `file.upload` section of the configuration the service reads. */
  datatype UploadConfig = UploadConfig(uploadPath: string, maxSize: int, allowedTypes: string)

  /** Why UploadFiles gives up. */
  datatype UploadError =
    | DirectoryFailed                      // os.MkdirAll failed
    | Invalid(reason: ValidationError)     // validateFile rejected the file
    | SaveFailed                           // opening, creating or copying the file failed
    | InsertFailed                         // the INSERT failed (a clashing id among others)

  /**
   * One call's files and what happens to them: file `k` is saved under
   * `uuids[k]` unless `k` is in `saveFails`, gets the id the generator
   * issues at clock reading `clock[k]`, is dated `dates[k]`, and its insert
   * fails when `k` is in `insertFails`.
   */
  datatype Batch = Batch(
    files: seq<UploadFile>,
    uuids: seq<string>,
    saveFails: set<nat>,
    clock: seq<Int64>,
    dates: seq<int>,
    insertFails: set<nat>)

  predicate AllUuids(uuids: seq<string>)
  {
    forall k :: 0 <= k < |uuids| ==> IsUuidText(uuids[k])
  }

  /** One UUID, clock reading and date per file. */
  predicate Consistent(b: Batch)
  {
    |b.uuids| == |b.files| && |b.clock| == |b.files| && |b.dates| == |b.files| && AllUuids(b.uuids)
  }

  /** What UploadFiles changes: the table, the upload directory and the id generator. */
  datatype Store = Store(rows: seq<FileInfo>, blobs: map<string, seq<byte>>, gen: GenState)

  /** The outcome of a call, the store after it, and how many files it inserted. */
  datatype UploadRun = UploadRun(result: Result<seq<FileInfoDTO>, UploadError>, store: Store, done: nat)

  /** convertToDTO: the record can be rebuilt from its DTO, so nothing is lost. */
  function ToDTO(r: FileInfo): (d: FileInfoDTO)
    ensures FileInfo(d.id, d.fileName, d.filePath, d.fileSize, d.status, d.uploadDate) == r
  {
    FileInfoDTO(r.id, r.fileName, r.filePath, r.fileSize, r.status, r.uploadDate)
  }

  /** The conversion loses nothing: different records give different DTOs. */
  lemma ToDTOInjective(a: FileInfo, b: FileInfo)
    ensures ToDTO(a) == ToDTO(b) ==> a == b
  {
  }

  /** convertToDTO over a run of records, in order. */
  function ToDTOs(rs: seq<FileInfo>): (ds: seq<FileInfoDTO>)
    ensures |ds| == |rs|
  {
    if rs == [] then [] else ToDTOs(rs[..|rs| - 1]) + [ToDTO(rs[|rs| - 1])]
  }

  /** Each DTO is the conversion of the record at the same position. */
  lemma {:induction false} ToDTOsAt(rs: seq<FileInfo>)
    ensures forall i :: 0 <= i < |rs| ==> ToDTOs(rs)[i] == ToDTO(rs[i])
  {
    if rs != [] {
      ToDTOsAt(rs[..|rs| - 1]);
    }
  }

  /** The DTO at position `i` converts the record at position `i`. */
  lemma {:induction false} ToDTOAt(rs: seq<FileInfo>, i: nat)
    requires i < |rs|
    ensures ToDTOs(rs)[i] == ToDTO(rs[i])
  {
    if i < |rs| - 1 {
      ToDTOAt(rs[..|rs| - 1], i);
    }
  }

  /**
   * The record UploadFiles inserts for an uploaded file: the stored name
   * carries the UUID and the original extension, the path is that name
   * under the upload directory, and the record starts active.
   */
  function NewRecord(file: UploadFile, id: nat, uuid: string, date: int, uploadPath: string): FileInfo
    requires IsUuidText(uuid)
  {
    var name := StoredName(file.filename, uuid);
    FileInfo(id, name, Join(uploadPath, name), file.size, ACTIVE, date)
  }

  /**
   * The new record carries the given id and date, status 0 and the declared
   * size; its name keeps the original extension and is one '_' and the UUID
   * longer, and its path is that name under the upload directory.
   */
  lemma NewRecordFields(file: UploadFile, id: nat, uuid: string, date: int, uploadPath: string)
    requires IsUuidText(uuid)
    ensures var r := NewRecord(file, id, uuid, date, uploadPath);
      r.id == id && r.status == ACTIVE && r.fileSize == file.size && r.uploadDate == date &&
      Ext(r.fileName) == Ext(file.filename) && |r.fileName| == |file.filename| + 1 + |uuid| &&
      r.filePath == Join(uploadPath, r.fileName)
  {
    StoredNameKeepsExt(file.filename, uuid);
    StoredNameCutsBack(file.filename, uuid);
  }

  /** The record for file `k` when the generator is in state `g`. */
  function RecordFor(b: Batch, uploadPath: string, g: GenState, k: nat): FileInfo
    requires Consistent(b) && k < |b.files|
  {
    NewRecord(b.files[k], IssuedId(g, b.clock[k]), b.uuids[k], b.dates[k], uploadPath)
  }

  /**
   * The records inserted for the first `n` files when the generator starts
   * in state `g`: file `k` gets the id issued at `clock[k]`.
   */
  function UploadedRows(g: GenState, b: Batch, uploadPath: string, n: nat): (rs: seq<FileInfo>)
    requires Consistent(b) && n <= |b.files|
    ensures |rs| == n
  {
    if n == 0 then []
    else UploadedRows(g, b, uploadPath, n - 1) + [RecordFor(b, uploadPath, After(g, b.clock[..n - 1]), n - 1)]
  }

  /** The record inserted for file `k`, one file at a time. */
  lemma {:induction false} UploadedRowAt(g: GenState, b: Batch, uploadPath: string, n: nat, k: nat)
    requires Consistent(b) && k < n <= |b.files|
    ensures UploadedRows(g, b, uploadPath, n)[k] == RecordFor(b, uploadPath, After(g, b.clock[..k]), k)
  {
    if k < n - 1 {
      UploadedRowAt(g, b, uploadPath, n - 1, k);
    }
  }

  /** Where saveFile puts each file: its stored name under the upload directory. */
  function StoredPaths(b: Batch, uploadPath: string): (paths: seq<string>)
    requires Consistent(b)
    ensures |paths| == |b.files|
  {
    seq(|b.files|, k requires 0 <= k < |b.files| => Join(uploadPath, StoredName(b.files[k].filename, b.uuids[k])))
  }

  /** The upload directory after the first `n` files have been written to their paths. */
  function Written(blobs: map<string, seq<byte>>, paths: seq<string>, files: seq<UploadFile>, n: nat): map<string, seq<byte>>
    requires n <= |files| && n <= |paths|
  {
    if n == 0 then blobs
    else Written(blobs, paths, files, n - 1)[paths[n - 1] := files[n - 1].content]
  }

  /** Pairwise distinct UUIDs give pairwise distinct stored paths. */
  lemma StoredPathsDistinct(b: Batch, uploadPath: string)
    requires Consistent(b)
    requires forall i, j :: 0 <= i < j < |b.uuids| ==> b.uuids[i] != b.uuids[j]
    ensures var paths := StoredPaths(b, uploadPath);
      forall i, j :: 0 <= i < j < |paths| ==> paths[i] != paths[j]
  {
    forall i, j | 0 <= i < j < |b.files|
      ensures StoredPaths(b, uploadPath)[i] != StoredPaths(b, uploadPath)[j]
    {
      StoredPathsDiffer(uploadPath, b.files[i].filename, b.uuids[i], b.files[j].filename, b.uuids[j]);
    }
  }

  /** When the paths are pairwise distinct, each of the first `n` files can be read back from its path. */
  lemma {:induction false} WrittenHolds(blobs: map<string, seq<byte>>, paths: seq<string>, files: seq<UploadFile>, n: nat, k: nat)
    requires n <= |files| && n <= |paths| && k < n
    requires forall i, j :: 0 <= i < j < n ==> paths[i] != paths[j]
    ensures paths[k] in Written(blobs, paths, files, n)
    ensures Written(blobs, paths, files, n)[paths[k]] == files[k].content
  {
    if k < n - 1 {
      WrittenHolds(blobs, paths, files, n - 1, k);
    }
  }

  /**
   * What happens to a file once the loop reaches it: the first of
   * validation, save and insert that fails, or None when it is stored. `id`
   * is the id generated for it and `taken` the ids already in the table.
   */
  function Outcome(cfg: UploadConfig, file: UploadFile, saveFails: bool, insertFails: bool, id: nat, taken: set<nat>): Option<UploadError>
  {
    match Validate(file.size, file.filename, cfg.maxSize, cfg.allowedTypes)
    case Some(e) => Some(Invalid(e))
    case None =>
      if saveFails then Some(SaveFailed)
      else if insertFails || id in taken then Some(InsertFailed)
      else None
  }

  /** File `k` passes validation, is saved and is inserted unless its id clashes. */
  predicate Passes(cfg: UploadConfig, b: Batch, k: nat)
    requires k < |b.files|
  {
    Validate(b.files[k].size, b.files[k].filename, cfg.maxSize, cfg.allowedTypes) == None &&
    k !in b.saveFails && k !in b.insertFails
  }

  /**
   * File `k` of a run from `st0` was stored: it passes, and the id issued
   * for it is not in the table the loop found, which holds the records of
   * `st0` and those of the files before it.
   */
  predicate Stored(cfg: UploadConfig, st0: Store, b: Batch, k: nat)
    requires Consistent(b) && k < |b.files|
  {
    Passes(cfg, b, k) &&
    IssuedId(After(st0.gen, b.clock[..k]), b.clock[k]) !in Ids(st0.rows + UploadedRows(st0.gen, b, cfg.uploadPath, k))
  }

  /**
   * One round of the loop on file `k`: validate, save, take the next id,
   * insert. A failed insert leaves the file on disk and the id consumed.
   */
  function UploadStep(cfg: UploadConfig, st: Store, b: Batch, k: nat): (Option<UploadError>, Store)
    requires Consistent(b) && k < |b.files|
  {
    var file := b.files[k];
    match Validate(file.size, file.filename, cfg.maxSize, cfg.allowedTypes)
    case Some(e) => (Some(Invalid(e)), st)
    case None =>
      if k in b.saveFails then (Some(SaveFailed), st)
      else
        var row := RecordFor(b, cfg.uploadPath, st.gen, k);
        var written := Store(st.rows, st.blobs[row.filePath := file.content], Next(st.gen, b.clock[k]));
        if k in b.insertFails || row.id in Ids(st.rows) then (Some(InsertFailed), written)
        else (None, written.(rows := st.rows + [row]))
  }

  /** The loop from file `k` on, with the DTOs of the files stored so far. */
  function UploadFrom(cfg: UploadConfig, st: Store, b: Batch, k: nat, dtos: seq<FileInfoDTO>): UploadRun
    requires Consistent(b) && k <= |b.files|
    decreases |b.files| - k
  {
    if k == |b.files| then UploadRun(Success(dtos), st, k)
    else
      var (err, next) := UploadStep(cfg, st, b, k);
      if err.Some? then UploadRun(Failure(err.value), next, k)
      else UploadFrom(cfg, next, b, k + 1, dtos + [ToDTO(RecordFor(b, cfg.uploadPath, st.gen, k))])
  }

  /** UploadFiles: create the upload directory, then run the loop over every file. */
  function Upload(cfg: UploadConfig, st: Store, b: Batch, mkdirFails: bool): (run: UploadRun)
    requires Consistent(b)
    ensures mkdirFails ==> run.store == st && run.result == Failure(DirectoryFailed)
    ensures run.done <= |b.files| && |run.store.rows| == |st.rows| + run.done && run.store.rows[..|st.rows|] == st.rows
    ensures run.result.Success? ==> run.done == |b.files| && |run.result.value| == |b.files|
    ensures !mkdirFails && run.done == |b.files| ==> run.result.Success?
  {
    if mkdirFails then UploadRun(Failure(DirectoryFailed), st, 0)
    else
      ReachedAtStart(cfg, st, b);
      UploadFromReaches(cfg, st, b, 0, st, []);
      var run := UploadFrom(cfg, st, b, 0, []);
      assert FinishedRows(cfg, st, b, run);
      assert run.store.rows[..|st.rows|] == st.rows;
      run
  }

  /** How many files were written to disk when the loop stopped after `done` inserted files. */
  function Attempted(result: Result<seq<FileInfoDTO>, UploadError>, done: nat): nat
  {
    if result == Failure(InsertFailed) then done + 1 else done
  }

  /**
   * The loop has stored the first `k` files of `b` starting from `st0`:
   * their records are appended, their files written, the generator has
   * been called once per file, and `dtos` converts the new records.
   */
  predicate ReachedAt(cfg: UploadConfig, st0: Store, b: Batch, k: nat, st: Store, dtos: seq<FileInfoDTO>)
    requires Consistent(b) && k <= |b.files|
  {
    st.rows == st0.rows + UploadedRows(st0.gen, b, cfg.uploadPath, k) &&
    st.blobs == Written(st0.blobs, StoredPaths(b, cfg.uploadPath), b.files, k) &&
    st.gen == After(st0.gen, b.clock[..k]) &&
    dtos == ToDTOs(UploadedRows(st0.gen, b, cfg.uploadPath, k)) &&
    forall m :: 0 <= m < k ==> Stored(cfg, st0, b, m)
  }

  /** Nothing is stored before the loop starts. */
  lemma ReachedAtStart(cfg: UploadConfig, st0: Store, b: Batch)
    requires Consistent(b)
    ensures ReachedAt(cfg, st0, b, 0, st0, [])
  {
    assert b.clock[..0] == [];
  }

  /** Converting one more record appends its DTO. */
  lemma ToDTOsSnoc(rs: seq<FileInfo>, r: FileInfo)
    ensures ToDTOs(rs + [r]) == ToDTOs(rs) + [ToDTO(r)]
  {
    assert (rs + [r])[..|rs|] == rs;
  }

  /** The round on file `k` fails exactly as Outcome says. */
  lemma StepOutcome(cfg: UploadConfig, st: Store, b: Batch, k: nat)
    requires Consistent(b) && k < |b.files|
    ensures UploadStep(cfg, st, b, k).0 ==
      Outcome(cfg, b.files[k], k in b.saveFails, k in b.insertFails, IssuedId(st.gen, b.clock[k]), Ids(st.rows))
  {
  }

  /**
   * The store after one round: unchanged when validation or the save fails;
   * otherwise the file is written and the generator advanced, and the record
   * is appended unless the insert fails.
   */
  lemma StepEffects(cfg: UploadConfig, st: Store, b: Batch, k: nat)
    requires Consistent(b) && k < |b.files|
    ensures var (err, next) := UploadStep(cfg, st, b, k);
      var row := RecordFor(b, cfg.uploadPath, st.gen, k);
      var written := st.blobs[row.filePath := b.files[k].content];
      (err == None ==> next == Store(st.rows + [row], written, Next(st.gen, b.clock[k]))) &&
      (err == Some(InsertFailed) ==> next == Store(st.rows, written, Next(st.gen, b.clock[k]))) &&
      (err != None && err != Some(InsertFailed) ==> next == st)
  {
  }

  /** The table and the DTOs after a round that stores file `k`. */
  lemma StepStoresRows(cfg: UploadConfig, st0: Store, b: Batch, k: nat, st: Store, dtos: seq<FileInfoDTO>)
    requires Consistent(b) && k < |b.files| && ReachedAt(cfg, st0, b, k, st, dtos)
    requires UploadStep(cfg, st, b, k).0 == None
    ensures var row := RecordFor(b, cfg.uploadPath, st.gen, k);
      UploadStep(cfg, st, b, k).1.rows == st0.rows + UploadedRows(st0.gen, b, cfg.uploadPath, k + 1) &&
      dtos + [ToDTO(row)] == ToDTOs(UploadedRows(st0.gen, b, cfg.uploadPath, k + 1)) &&
      Stored(cfg, st0, b, k)
  {
    var row := RecordFor(b, cfg.uploadPath, st.gen, k);
    StepEffects(cfg, st, b, k);
    StepOutcome(cfg, st, b, k);
    var before := UploadedRows(st0.gen, b, cfg.uploadPath, k);
    assert UploadedRows(st0.gen, b, cfg.uploadPath, k + 1) == before + [row];
    assert UploadStep(cfg, st, b, k).1.rows == (st0.rows + before) + [row];
    ToDTOsSnoc(before, row);
  }

  /** The disk and the generator after a round that stores file `k`. */
  lemma StepStoresTraces(cfg: UploadConfig, st0: Store, b: Batch, k: nat, st: Store, dtos: seq<FileInfoDTO>)
    requires Consistent(b) && k < |b.files| && ReachedAt(cfg, st0, b, k, st, dtos)
    requires UploadStep(cfg, st, b, k).0 == None
    ensures UploadStep(cfg, st, b, k).1.blobs == Written(st0.blobs, StoredPaths(b, cfg.uploadPath), b.files, k + 1)
    ensures UploadStep(cfg, st, b, k).1.gen == After(st0.gen, b.clock[..k + 1])
  {
    StepEffects(cfg, st, b, k);
    assert StoredPaths(b, cfg.uploadPath)[k] == RecordFor(b, cfg.uploadPath, st.gen, k).filePath;
    IssuedAt(st0.gen, b.clock, k);
  }

  /** A round that stores file `k` reaches the state with `k + 1` files stored. */
  lemma StepStores(cfg: UploadConfig, st0: Store, b: Batch, k: nat, st: Store, dtos: seq<FileInfoDTO>)
    requires Consistent(b) && k < |b.files| && ReachedAt(cfg, st0, b, k, st, dtos)
    requires UploadStep(cfg, st, b, k).0 == None
    ensures ReachedAt(cfg, st0, b, k + 1, UploadStep(cfg, st, b, k).1,
                      dtos + [ToDTO(RecordFor(b, cfg.uploadPath, st.gen, k))])
  {
    StepStoresRows(cfg, st0, b, k, st, dtos);
    StepStoresTraces(cfg, st0, b, k, st, dtos);
  }

  /**
   * A round that fails keeps the table; it leaves a written file and a
   * consumed id behind only when the insert was what failed.
   */
  lemma StepStops(cfg: UploadConfig, st0: Store, b: Batch, k: nat, st: Store, dtos: seq<FileInfoDTO>)
    requires Consistent(b) && k < |b.files| && ReachedAt(cfg, st0, b, k, st, dtos)
    requires UploadStep(cfg, st, b, k).0 != None
    ensures var (err, next) := UploadStep(cfg, st, b, k);
      var attempted := if err == Some(InsertFailed) then k + 1 else k;
      next.rows == st.rows &&
      next.gen == After(st0.gen, b.clock[..attempted]) &&
      next.blobs == Written(st0.blobs, StoredPaths(b, cfg.uploadPath), b.files, attempted)
  {
    StepEffects(cfg, st, b, k);
    IssuedAt(st0.gen, b.clock, k);
    assert StoredPaths(b, cfg.uploadPath)[k] == RecordFor(b, cfg.uploadPath, st.gen, k).filePath;
  }

  /**
   * The table of a finished run `r` from `st0`: it stored a prefix of the
   * files, each of which passed, and succeeded exactly when it stored them
   * all, returning their DTOs.
   */
  predicate FinishedRows(cfg: UploadConfig, st0: Store, b: Batch, r: UploadRun)
    requires Consistent(b)
  {
    r.done <= |b.files| &&
    r.store.rows == st0.rows + UploadedRows(st0.gen, b, cfg.uploadPath, r.done) &&
    (forall m :: 0 <= m < r.done ==> Stored(cfg, st0, b, m)) &&
    (r.result.Success? <==> r.done == |b.files|) &&
    (r.result.Success? ==> r.result.value == ToDTOs(UploadedRows(st0.gen, b, cfg.uploadPath, r.done)))
  }

  /** A failed run reports the Outcome of the first file it could not store. */
  predicate FinishedError(cfg: UploadConfig, st0: Store, b: Batch, r: UploadRun)
    requires Consistent(b)
  {
    r.result.Failure? ==> (r.done < |b.files| &&
      Some(r.result.error) == Outcome(cfg, b.files[r.done], r.done in b.saveFails, r.done in b.insertFails,
                                      IssuedId(After(st0.gen, b.clock[..r.done]), b.clock[r.done]), Ids(r.store.rows)))
  }

  /** The disk and the generator of a finished run hold the traces of every file it wrote. */
  predicate FinishedTraces(cfg: UploadConfig, st0: Store, b: Batch, r: UploadRun)
    requires Consistent(b)
  {
    Attempted(r.result, r.done) <= |b.files| &&
    r.store.gen == After(st0.gen, b.clock[..Attempted(r.result, r.done)]) &&
    r.store.blobs == Written(st0.blobs, StoredPaths(b, cfg.uploadPath), b.files, Attempted(r.result, r.done))
  }

  /** Everything a finished run `r` from `st0` satisfies. */
  predicate Finished(cfg: UploadConfig, st0: Store, b: Batch, r: UploadRun)
    requires Consistent(b)
  {
    FinishedRows(cfg, st0, b, r) && FinishedError(cfg, st0, b, r) && FinishedTraces(cfg, st0, b, r)
  }

  /** Having stored every file, the run succeeds with their DTOs. */
  lemma FinishedAtEnd(cfg: UploadConfig, st0: Store, b: Batch, st: Store, dtos: seq<FileInfoDTO>)
    requires Consistent(b) && ReachedAt(cfg, st0, b, |b.files|, st, dtos)
    ensures Finished(cfg, st0, b, UploadRun(Success(dtos), st, |b.files|))
  {
    var r := UploadRun(Success(dtos), st, |b.files|);
    assert FinishedRows(cfg, st0, b, r);
    assert FinishedTraces(cfg, st0, b, r) by {
      assert Attempted(r.result, r.done) == |b.files|;
    }
  }

  /** A round that fails ends the run with its Outcome. */
  lemma FinishedOnFailure(cfg: UploadConfig, st0: Store, b: Batch, k: nat, st: Store, dtos: seq<FileInfoDTO>)
    requires Consistent(b) && k < |b.files| && ReachedAt(cfg, st0, b, k, st, dtos)
    requires UploadStep(cfg, st, b, k).0 != None
    ensures Finished(cfg, st0, b, UploadRun(Failure(UploadStep(cfg, st, b, k).0.value), UploadStep(cfg, st, b, k).1, k))
  {
    FailureRows(cfg, st0, b, k, st, dtos);
    FailureError(cfg, st0, b, k, st, dtos);
    FailureTraces(cfg, st0, b, k, st, dtos);
  }

  /** A failed round inserts nothing, so the table holds the rows reached before it. */
  lemma FailureRows(cfg: UploadConfig, st0: Store, b: Batch, k: nat, st: Store, dtos: seq<FileInfoDTO>)
    requires Consistent(b) && k < |b.files| && ReachedAt(cfg, st0, b, k, st, dtos)
    requires UploadStep(cfg, st, b, k).0 != None
    ensures FinishedRows(cfg, st0, b, UploadRun(Failure(UploadStep(cfg, st, b, k).0.value), UploadStep(cfg, st, b, k).1, k))
  {
    StepStops(cfg, st0, b, k, st, dtos);
  }

  /** A failed round reports the Outcome of its file. */
  lemma FailureError(cfg: UploadConfig, st0: Store, b: Batch, k: nat, st: Store, dtos: seq<FileInfoDTO>)
    requires Consistent(b) && k < |b.files| && ReachedAt(cfg, st0, b, k, st, dtos)
    requires UploadStep(cfg, st, b, k).0 != None
    ensures FinishedError(cfg, st0, b, UploadRun(Failure(UploadStep(cfg, st, b, k).0.value), UploadStep(cfg, st, b, k).1, k))
  {
    StepStops(cfg, st0, b, k, st, dtos);
    StepOutcome(cfg, st, b, k);
  }

  /** A failed round leaves the traces of the files attempted so far. */
  lemma FailureTraces(cfg: UploadConfig, st0: Store, b: Batch, k: nat, st: Store, dtos: seq<FileInfoDTO>)
    requires Consistent(b) && k < |b.files| && ReachedAt(cfg, st0, b, k, st, dtos)
    requires UploadStep(cfg, st, b, k).0 != None
    ensures FinishedTraces(cfg, st0, b, UploadRun(Failure(UploadStep(cfg, st, b, k).0.value), UploadStep(cfg, st, b, k).1, k))
  {
    var (err, next) := UploadStep(cfg, st, b, k);
    var n := if err == Some(InsertFailed) then k + 1 else k;
    StepStops(cfg, st0, b, k, st, dtos);
    assert Attempted(Failure(err.value), k) == n;
    assert next.gen == After(st0.gen, b.clock[..n]);
    assert next.blobs == Written(st0.blobs, StoredPaths(b, cfg.uploadPath), b.files, n);
  }

  /** Running the loop from a reached state finishes, having stored at least what was reached. */
  lemma {:induction false} UploadFromReaches(cfg: UploadConfig, st0: Store, b: Batch, k: nat, st: Store, dtos: seq<FileInfoDTO>)
    requires Consistent(b) && k <= |b.files| && ReachedAt(cfg, st0, b, k, st, dtos)
    ensures k <= UploadFrom(cfg, st, b, k, dtos).done
    ensures Finished(cfg, st0, b, UploadFrom(cfg, st, b, k, dtos))
    decreases |b.files| - k
  {
    if k == |b.files| {
      FinishedAtEnd(cfg, st0, b, st, dtos);
    } else {
      var (err, next) := UploadStep(cfg, st, b, k);
      if err == None {
        StepStores(cfg, st0, b, k, st, dtos);
        UploadFromReaches(cfg, st0, b, k + 1, next, dtos + [ToDTO(RecordFor(b, cfg.uploadPath, st.gen, k))]);
      } else {
        FinishedOnFailure(cfg, st0, b, k, st, dtos);
      }
    }
  }

  /** A run that does not fail at MkdirAll finishes as Finished says. */
  lemma UploadFinishes(cfg: UploadConfig, st: Store, b: Batch, mkdirFails: bool)
    requires Consistent(b)
    ensures mkdirFails ==> Upload(cfg, st, b, mkdirFails) == UploadRun(Failure(DirectoryFailed), st, 0)
    ensures !mkdirFails ==> Finished(cfg, st, b, Upload(cfg, st, b, mkdirFails))
  {
    if !mkdirFails {
      ReachedAtStart(cfg, st, b);
      UploadFromReaches(cfg, st, b, 0, st, []);
    }
  }

  /**
   * Every id issued for the batch is new to the table and differs from the
   * ids issued before it in the same call.
   */
  predicate FreshIds(st: Store, b: Batch)
    requires Consistent(b)
  {
    var ids := Issued(st.gen, b.clock);
    forall k :: 0 <= k < |ids| ==> ids[k] !in Ids(st.rows) && forall j :: 0 <= j < k ==> ids[j] != ids[k]
  }

  /** An id is in the table extended by `added` when it is in the table or on one of the added records. */
  lemma IdsAppended(rows: seq<FileInfo>, added: seq<FileInfo>, x: nat)
    ensures x in Ids(rows + added) <==> x in Ids(rows) || exists j :: 0 <= j < |added| && added[j].id == x
  {
    if x in Ids(rows + added) && x !in Ids(rows) {
      var r :| r in rows + added && r.id == x;
      var j :| 0 <= j < |added| && added[j] == r;
    }
    if exists j :: 0 <= j < |added| && added[j].id == x {
      var j :| 0 <= j < |added| && added[j].id == x;
      assert (rows + added)[|rows| + j] == added[j];
    }
    if x in Ids(rows) {
      var r :| r in rows && r.id == x;
      assert r in rows + added;
    }
  }

  /** The records inserted for the first `k` files carry the first `k` ids issued for the batch. */
  lemma UploadedIds(st0: Store, b: Batch, uploadPath: string, k: nat)
    requires Consistent(b) && k <= |b.files|
    ensures forall j :: 0 <= j < k ==> UploadedRows(st0.gen, b, uploadPath, k)[j].id == Issued(st0.gen, b.clock)[j]
  {
    forall j | 0 <= j < k
      ensures UploadedRows(st0.gen, b, uploadPath, k)[j].id == Issued(st0.gen, b.clock)[j]
    {
      UploadedRowAt(st0.gen, b, uploadPath, k, j);
      IssuedAt(st0.gen, b.clock, j);
    }
  }

  /** File `k` can be stored exactly when it passes and its id is new to the table and to the call. */
  lemma StoredIff(cfg: UploadConfig, st0: Store, b: Batch, k: nat)
    requires Consistent(b) && k < |b.files|
    ensures var ids := Issued(st0.gen, b.clock);
      Stored(cfg, st0, b, k) <==>
        Passes(cfg, b, k) && ids[k] !in Ids(st0.rows) && forall j :: 0 <= j < k ==> ids[j] != ids[k]
  {
    var ids := Issued(st0.gen, b.clock);
    var added := UploadedRows(st0.gen, b, cfg.uploadPath, k);
    IssuedAt(st0.gen, b.clock, k);
    UploadedIds(st0, b, cfg.uploadPath, k);
    IdsAppended(st0.rows, added, ids[k]);
  }

  /** What Outcome says: a file is stored exactly when every check passes, and never fails at MkdirAll. */
  lemma OutcomeCases(cfg: UploadConfig, file: UploadFile, saveFails: bool, insertFails: bool, id: nat, taken: set<nat>)
    ensures Outcome(cfg, file, saveFails, insertFails, id, taken) != Some(DirectoryFailed)
    ensures Outcome(cfg, file, saveFails, insertFails, id, taken) == None <==>
      Validate(file.size, file.filename, cfg.maxSize, cfg.allowedTypes) == None && !saveFails && !insertFails && id !in taken
  {
  }

  /** A successful UploadFiles passed every file and issued only new ids. */
  lemma UploadSuccessNeeds(cfg: UploadConfig, st: Store, b: Batch, mkdirFails: bool)
    requires Consistent(b)
    requires Upload(cfg, st, b, mkdirFails).result.Success?
    ensures !mkdirFails && (forall k :: 0 <= k < |b.files| ==> Passes(cfg, b, k)) && FreshIds(st, b)
  {
    var r := UploadFrom(cfg, st, b, 0, []);
    UploadFinishes(cfg, st, b, mkdirFails);
    assert FinishedRows(cfg, st, b, r);
    var ids := Issued(st.gen, b.clock);
    forall k | 0 <= k < |b.files|
      ensures Passes(cfg, b, k)
      ensures ids[k] !in Ids(st.rows) && forall j :: 0 <= j < k ==> ids[j] != ids[k]
    {
      assert Stored(cfg, st, b, k);
      StoredIff(cfg, st, b, k);
    }
  }

  /** When every file passes and every id is new, UploadFiles succeeds. */
  lemma UploadSuccessWhen(cfg: UploadConfig, st: Store, b: Batch)
    requires Consistent(b)
    requires forall k :: 0 <= k < |b.files| ==> Passes(cfg, b, k)
    requires FreshIds(st, b)
    ensures Upload(cfg, st, b, false).result.Success?
  {
    var r := UploadFrom(cfg, st, b, 0, []);
    UploadFinishes(cfg, st, b, false);
    if r.result.Failure? {
      assert FinishedRows(cfg, st, b, r);
      assert FinishedError(cfg, st, b, r);
      var k := r.done;
      StoredIff(cfg, st, b, k);
      assert false;
    }
  }

  /**
   * UploadFiles returns the DTOs of all files exactly when MkdirAll works,
   * every file passes validation, save and insert, and every generated id
   * is new.
   */
  lemma UploadSucceedsIff(cfg: UploadConfig, st: Store, b: Batch, mkdirFails: bool)
    requires Consistent(b)
    ensures Upload(cfg, st, b, mkdirFails).result.Success? <==>
      !mkdirFails && (forall k :: 0 <= k < |b.files| ==> Passes(cfg, b, k)) && FreshIds(st, b)
  {
    if Upload(cfg, st, b, mkdirFails).result.Success? {
      UploadSuccessNeeds(cfg, st, b, mkdirFails);
    }
    if !mkdirFails && (forall k :: 0 <= k < |b.files| ==> Passes(cfg, b, k)) && FreshIds(st, b) {
      UploadSuccessWhen(cfg, st, b);
    }
  }

  /** Only a failing MkdirAll yields DirectoryFailed, and it changes nothing. */
  lemma UploadDirectoryFailure(cfg: UploadConfig, st: Store, b: Batch, mkdirFails: bool)
    requires Consistent(b)
    ensures var r := Upload(cfg, st, b, mkdirFails);
      (r.result == Failure(DirectoryFailed) <==> mkdirFails) &&
      (mkdirFails ==> r.store == st && r.done == 0)
  {
    if !mkdirFails {
      var r := UploadFrom(cfg, st, b, 0, []);
      UploadFinishes(cfg, st, b, mkdirFails);
      if r.result.Failure? {
        assert FinishedError(cfg, st, b, r);
        OutcomeCases(cfg, b.files[r.done], r.done in b.saveFails, r.done in b.insertFails,
                     IssuedId(After(st.gen, b.clock[..r.done]), b.clock[r.done]), Ids(r.store.rows));
      }
    }
  }

  /**
   * A failed UploadFiles keeps the files it stored before the failure, all
   * of which passed: there is no rollback.
   */
  lemma UploadKeepsPrefix(cfg: UploadConfig, st: Store, b: Batch, mkdirFails: bool)
    requires Consistent(b)
    ensures var r := Upload(cfg, st, b, mkdirFails);
      r.result.Failure? ==>
        r.done <= |b.files| &&
        r.store.rows == st.rows + UploadedRows(st.gen, b, cfg.uploadPath, r.done) &&
        (forall m :: 0 <= m < r.done ==> Passes(cfg, b, m))
  {
    if !mkdirFails {
      var r := UploadFrom(cfg, st, b, 0, []);
      UploadFinishes(cfg, st, b, mkdirFails);
      assert FinishedRows(cfg, st, b, r);
      forall m | 0 <= m < r.done
        ensures Passes(cfg, b, m)
      {
        assert Stored(cfg, st, b, m);
      }
    }
  }

  /**
   * Past MkdirAll, UploadFiles stops at the first file it cannot store and
   * reports why that file failed.
   */
  lemma UploadReportsFirstFailure(cfg: UploadConfig, st: Store, b: Batch)
    requires Consistent(b)
    ensures var r := Upload(cfg, st, b, false);
      r.result.Failure? ==> (r.done < |b.files| &&
        Some(r.result.error) == Outcome(cfg, b.files[r.done], r.done in b.saveFails, r.done in b.insertFails,
                                        Issued(st.gen, b.clock)[r.done], Ids(r.store.rows)))
  {
    var r := UploadFrom(cfg, st, b, 0, []);
    UploadFinishes(cfg, st, b, false);
    if r.result.Failure? {
      assert FinishedError(cfg, st, b, r);
      IssuedAt(st.gen, b.clock, r.done);
    }
  }

  /** The record a run that stored every file inserted for file `k`. */
  lemma SuccessRecord(cfg: UploadConfig, st: Store, b: Batch, k: nat)
    requires Consistent(b) && k < |b.files|
    ensures var added := UploadedRows(st.gen, b, cfg.uploadPath, |b.files|);
      (st.rows + added)[|st.rows| + k] == NewRecord(b.files[k], Issued(st.gen, b.clock)[k], b.uuids[k], b.dates[k], cfg.uploadPath) &&
      ToDTOs(added)[k] == ToDTO((st.rows + added)[|st.rows| + k])
  {
    var added := UploadedRows(st.gen, b, cfg.uploadPath, |b.files|);
    UploadedRowAt(st.gen, b, cfg.uploadPath, |b.files|, k);
    IssuedAt(st.gen, b.clock, k);
    ToDTOAt(added, k);
    assert (st.rows + added)[|st.rows| + k] == added[k];
  }

  /**
   * A successful UploadFiles returns one DTO per file, in order: the record
   * it inserted for that file, active, under a stored name that keeps the
   * extension, at that name under the upload directory, with the id the
   * generator issued for it.
   */
  lemma UploadReturnsRecords(cfg: UploadConfig, st: Store, b: Batch, mkdirFails: bool)
    requires Consistent(b)
    requires Upload(cfg, st, b, mkdirFails).result.Success?
    ensures var r := Upload(cfg, st, b, mkdirFails);
      var dtos := r.result.value;
      |dtos| == |b.files| && |r.store.rows| == |st.rows| + |b.files| && r.store.rows[..|st.rows|] == st.rows &&
      forall k :: 0 <= k < |b.files| ==>
        dtos[k] == ToDTO(r.store.rows[|st.rows| + k]) &&
        dtos[k].id == Issued(st.gen, b.clock)[k] && dtos[k].status == ACTIVE &&
        dtos[k].fileSize == b.files[k].size && dtos[k].uploadDate == b.dates[k] &&
        dtos[k].fileName == StoredName(b.files[k].filename, b.uuids[k]) &&
        Ext(dtos[k].fileName) == Ext(b.files[k].filename) &&
        dtos[k].filePath == Join(cfg.uploadPath, dtos[k].fileName)
  {
    var r := UploadFrom(cfg, st, b, 0, []);
    UploadFinishes(cfg, st, b, mkdirFails);
    assert FinishedRows(cfg, st, b, r);
    assert r.store.rows[..|st.rows|] == st.rows;
    var dtos := r.result.value;
    forall k | 0 <= k < |b.files|
      ensures dtos[k] == ToDTO(r.store.rows[|st.rows| + k])
      ensures dtos[k].id == Issued(st.gen, b.clock)[k] && dtos[k].status == ACTIVE
      ensures dtos[k].fileSize == b.files[k].size && dtos[k].uploadDate == b.dates[k]
      ensures dtos[k].fileName == StoredName(b.files[k].filename, b.uuids[k])
      ensures Ext(dtos[k].fileName) == Ext(b.files[k].filename)
      ensures dtos[k].filePath == Join(cfg.uploadPath, dtos[k].fileName)
    {
      SuccessRecord(cfg, st, b, k);
      StoredNameKeepsExt(b.files[k].filename, b.uuids[k]);
    }
  }

  /**
   * Whatever the outcome, UploadFiles has written every file it saved to its
   * stored path, in order, and called the generator once for each.
   */
  lemma UploadTraces(cfg: UploadConfig, st: Store, b: Batch, mkdirFails: bool)
    requires Consistent(b)
    ensures var r := Upload(cfg, st, b, mkdirFails);
      var n := Attempted(r.result, r.done);
      n <= |b.files| &&
      r.store.gen == After(st.gen, b.clock[..n]) &&
      r.store.blobs == Written(st.blobs, StoredPaths(b, cfg.uploadPath), b.files, n)
  {
    UploadFinishes(cfg, st, b, mkdirFails);
    if mkdirFails {
      assert b.clock[..0] == [];
    } else {
      assert FinishedTraces(cfg, st, b, UploadFrom(cfg, st, b, 0, []));
    }
  }

  /** Writing files leaves every other path as it was. */
  lemma {:induction false} WrittenElsewhere(blobs: map<string, seq<byte>>, paths: seq<string>, files: seq<UploadFile>, n: nat, p: string)
    requires n <= |files| && n <= |paths|
    requires forall i :: 0 <= i < n ==> paths[i] != p
    ensures p in Written(blobs, paths, files, n) <==> p in blobs
    ensures p in blobs ==> Written(blobs, paths, files, n)[p] == blobs[p]
  {
    if n > 0 {
      WrittenElsewhere(blobs, paths, files, n - 1, p);
    }
  }

  /**
   * With distinct UUIDs, each DTO a successful UploadFiles returns names a
   * path that holds exactly the uploaded content.
   */
  lemma UploadThenRead(cfg: UploadConfig, st: Store, b: Batch, mkdirFails: bool)
    requires Consistent(b)
    requires forall i, j :: 0 <= i < j < |b.uuids| ==> b.uuids[i] != b.uuids[j]
    requires Upload(cfg, st, b, mkdirFails).result.Success?
    ensures var r := Upload(cfg, st, b, mkdirFails);
      |r.result.value| == |b.files| &&
      forall k :: 0 <= k < |b.files| ==>
        r.result.value[k].filePath in r.store.blobs && r.store.blobs[r.result.value[k].filePath] == b.files[k].content
  {
    var r := UploadFrom(cfg, st, b, 0, []);
    var paths := StoredPaths(b, cfg.uploadPath);
    UploadFinishes(cfg, st, b, mkdirFails);
    assert FinishedRows(cfg, st, b, r);
    assert FinishedTraces(cfg, st, b, r);
    StoredPathsDistinct(b, cfg.uploadPath);
    forall k | 0 <= k < |b.files|
      ensures r.result.value[k].filePath in r.store.blobs && r.store.blobs[r.result.value[k].filePath] == b.files[k].content
    {
      SuccessRecord(cfg, st, b, k);
      assert r.result.value[k].filePath == paths[k];
      WrittenHolds(st.blobs, paths, b.files, |b.files|, k);
    }
  }
}

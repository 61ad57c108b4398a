/**
 * The records of models/file_info.go: one row of the `fileInfo` table and the
 * DTO handed back to callers, plus the uploaded-file header the service reads.
 */
module Models {

  /** One byte of file content. */
  newtype byte = x: int | 0 <= x < 256

  /** Values of the `status` column. */
  const ACTIVE: int := 0
  const REMOVED: int := 1

  /**
   * A row of the `fileInfo` table. `uploadDate` is a millisecond timestamp;
   * `id` is a 64-bit unsigned value kept as a `nat`.
   */
  datatype FileInfo = FileInfo(
    id: nat,
    fileName: string,
    filePath: string,
    fileSize: int,
    status: int,
    uploadDate: int)

  /** The record shape returned to callers; field for field the same as FileInfo. */
  datatype FileInfoDTO = FileInfoDTO(
    id: nat,
    fileName: string,
    filePath: string,
    fileSize: int,
    status: int,
    uploadDate: int)

  /** A multipart file header: the client's file name, the declared size and the bytes. */
  datatype UploadFile = UploadFile(filename: string, size: int, content: seq<byte>)
}

/**
 * The upload/delete orchestration over two independent stores: the public disk,
 * mapping a storage path to bytes, and the `files` table, mapping an id to a row.
 * The answers of the two back ends (did the insert succeed, did the delete succeed)
 * are parameters of the operations.
 */
module FileService {
  import opened Common
  import opened FileModel
  import opened FileNames

  /** Why `storeFile` failed: the database refused the insert (the blob is already written). */
  datatype StoreError = RecordNotCreated

  /** Why `deleteFile` failed; each kind is a distinct exception of the service. */
  datatype DeleteError = NotInStorage | StorageDeleteFailed | DatabaseDeleteFailed

  datatype DeleteOutcome = Deleted | DeleteFailed(error: DeleteError)

  const NotInStorageMessage: string := "File not found in storage."

  /** The message each kind of delete failure is raised with. */
  function ErrorMessage(e: DeleteError): string
  {
    match e
    case NotInStorage => NotInStorageMessage
    case StorageDeleteFailed => "Failed to delete file from storage."
    case DatabaseDeleteFailed => "Failed to delete file from database."
  }

  /** The messages tell the kinds apart: a message determines its kind. */
  lemma ErrorMessageInjective(e1: DeleteError, e2: DeleteError)
    requires ErrorMessage(e1) == ErrorMessage(e2)
    ensures e1 == e2
  {
    assert ErrorMessage(e1)[0] == ErrorMessage(e2)[0];
    assert ErrorMessage(e1)[25] == ErrorMessage(e2)[25];
  }

  // ---------------------------------------------------------------------------
  // Download response

  datatype DownloadHeaders = DownloadHeaders(contentType: string, contentDisposition: string, contentLength: int)

  /** The body and headers of a download. */
  datatype Download = Download(content: seq<byte>, headers: DownloadHeaders)

  const DispositionPrefix: string := "attachment; filename=\""

  /** The `Content-Disposition` value for a client file name. */
  function ContentDisposition(name: string): string
  {
    DispositionPrefix + name + "\""
  }

  /** Reads the file name back out of a `Content-Disposition` value. */
  function DispositionFilename(value: string): Option<string>
  {
    if |value| > |DispositionPrefix| && value[..|DispositionPrefix|] == DispositionPrefix && value[|value| - 1] == '"'
    then Some(value[|DispositionPrefix|..|value| - 1])
    else None
  }

  /** The download names the file exactly as its client name, quotes and all. */
  lemma DispositionRoundTrip(name: string)
    ensures DispositionFilename(ContentDisposition(name)) == Some(name)
  {
    var v := ContentDisposition(name);
    assert v[..|DispositionPrefix|] == DispositionPrefix;
    assert v[|DispositionPrefix|..|v| - 1] == name;
  }

  /** The headers of a download are the row's MIME type, client name and recorded size. */
  function HeadersFor(file: Record): (h: DownloadHeaders)
    ensures h.contentType == file.mimeType && h.contentLength == file.size
    ensures DispositionFilename(h.contentDisposition) == Some(file.name)
  {
    DispositionRoundTrip(file.name);
    DownloadHeaders(file.mimeType, ContentDisposition(file.name), file.size)
  }

  // ---------------------------------------------------------------------------
  // The service over its two stores

  class FileService {
    /** The public disk: storage path to bytes. */
    var blobs: map<string, seq<byte>>
    /** The `files` table: id to row. */
    var records: map<int, Record>
    /** The id the table's auto-increment key hands out next. */
    var nextId: int

    /** Every row is stored under its own id, and every id was handed out before. */
    ghost predicate Valid()
      reads this
    {
      forall id :: id in records ==> records[id].id == id && id < nextId
    }

    constructor ()
      ensures Valid()
      ensures blobs == map[] && records == map[] && nextId == 1
    {
      blobs := map[];
      records := map[];
      nextId := 1;
    }

    /**
     * `storeFile`: generate the file name, write the bytes under `files/`, then insert
     * the row. `created` is the database's answer to the insert; when it refuses, the
     * exception propagates and the blob that was already written stays behind.
     */
    method StoreFile(
      upload: Upload, description: Option<string>,
      slug: string -> string, time: nat, token: string, now: Timestamp, created: bool)
      returns (r: Result<Record, StoreError>)
      requires Valid() && IsRandomToken(token)
      modifies this
      ensures Valid()
      ensures var path := StoragePath(UniqueFilename(upload.clientOriginalName, slug, time, token));
        blobs == old(blobs)[path := upload.content]
      ensures created ==>
        var path := StoragePath(UniqueFilename(upload.clientOriginalName, slug, time, token));
        var fields := Fields(upload.clientOriginalName, path, upload.mimeType, |upload.content|, description);
        && r == Success(NewRecord(old(nextId), fields, now))
        && old(nextId) !in old(records)
        && records == old(records)[old(nextId) := r.value]
        && nextId == old(nextId) + 1
      ensures !created ==> r == Failure(RecordNotCreated) && records == old(records) && nextId == old(nextId)
    {
      var filename := UniqueFilename(upload.clientOriginalName, slug, time, token);
      var path := StoragePath(filename);
      blobs := blobs[path := upload.content];
      if !created {
        return Failure(RecordNotCreated);
      }
      var fields := Fields(upload.clientOriginalName, path, upload.mimeType, |upload.content|, description);
      var row := NewRecord(nextId, fields, now);
      records := records[nextId := row];
      nextId := nextId + 1;
      r := Success(row);
    }

    /**
     * `deleteFile`: check that the blob exists, delete the blob, then delete the row.
     * `blobDeleted` and `rowDeleted` are the answers of the disk and of the database.
     */
    method DeleteFile(file: Record, blobDeleted: bool, rowDeleted: bool) returns (o: DeleteOutcome)
      requires Valid()
      modifies this
      ensures Valid() && nextId == old(nextId)
      ensures file.path !in old(blobs) ==>
        o == DeleteFailed(NotInStorage) && blobs == old(blobs) && records == old(records)
      ensures file.path in old(blobs) && !blobDeleted ==>
        o == DeleteFailed(StorageDeleteFailed) && blobs == old(blobs) && records == old(records)
      ensures file.path in old(blobs) && blobDeleted && !rowDeleted ==>
        o == DeleteFailed(DatabaseDeleteFailed) && blobs == old(blobs) - {file.path} && records == old(records)
      ensures file.path in old(blobs) && blobDeleted && rowDeleted ==>
        o == Deleted && blobs == old(blobs) - {file.path} && records == old(records) - {file.id}
    {
      if file.path !in blobs {
        return DeleteFailed(NotInStorage);
      }
      if !blobDeleted {
        return DeleteFailed(StorageDeleteFailed);
      }
      blobs := blobs - {file.path};
      if !rowDeleted {
        return DeleteFailed(DatabaseDeleteFailed);
      }
      records := records - {file.id};
      o := Deleted;
    }

    /**
     * `getFileContent`: the bytes stored under the row's path. When there are none the
     * disk answers null, which the declared `string` return type turns into an error:
     * `None` here.
     */
    function GetFileContent(file: Record): (c: Option<seq<byte>>)
      reads this
      ensures c.Some? <==> file.path in blobs
      ensures c.Some? ==> c.value == blobs[file.path]
    {
      if file.path in blobs then Some(blobs[file.path]) else None
    }

    /**
     * `getDownloadResponse`: the stored bytes with the row's headers; it fails
     * (`None`) exactly when reading the content fails.
     */
    function GetDownloadResponse(file: Record): (d: Option<Download>)
      reads this
      ensures d.Some? <==> file.path in blobs
      ensures d.Some? ==> d.value.content == blobs[file.path] && d.value.headers == HeadersFor(file)
    {
      var content := GetFileContent(file);
      if content.Some? then Some(Download(content.value, HeadersFor(file))) else None
    }
  }

  /**
   * After a successful upload the new row's blob holds exactly the uploaded bytes,
   * the recorded size is their length, and a download returns them.
   */
  method UploadThenDownload(
    svc: FileService, upload: Upload, description: Option<string>,
    slug: string -> string, time: nat, token: string, now: Timestamp)
    returns (row: Record, d: Option<Download>)
    requires svc.Valid() && IsRandomToken(token)
    modifies svc
    ensures svc.Valid()
    ensures row.path in svc.blobs && svc.blobs[row.path] == upload.content
    ensures row.id in svc.records && svc.records[row.id] == row
    ensures row.size == |upload.content| && row.name == upload.clientOriginalName
    ensures row.mimeType == upload.mimeType && row.description == description
    ensures d.Some? && d.value.content == upload.content && d.value.headers.contentLength == |upload.content|
  {
    var r := svc.StoreFile(upload, description, slug, time, token, now, true);
    row := r.value;
    d := svc.GetDownloadResponse(row);
  }
}

/**
 * The five endpoints of the file API as they are wired: listing and showing are
 * open, uploading and deleting sit behind the token gate. A `{file}` route
 * parameter is resolved against the table first; an unknown id is a 404.
 */
module FileController {
  import opened Common
  import opened FileModel
  import opened FileNames
  import opened FileQuery
  import opened FileService
  import opened StoreFileRequest
  import opened Http
  import opened TokenAuth

  const UploadedMessage: string := "File uploaded successfully."
  const DeletedMessage: string := "File deleted successfully."
  const DeleteFailedMessage: string := "Failed to delete file. Please try again."

  // ---------------------------------------------------------------------------
  // GET /files

  /** The query string of a listing: filters, `sort`, `per_page` and `page`. */
  datatype IndexQuery = IndexQuery(filters: Filters, sort: Option<Sort>, perPage: Option<nat>, page: Option<int>)

  /** A length-aware page: its rows, the number of matching rows, the page size, the page number and the last page. */
  datatype Paginated = Paginated(items: seq<Record>, total: nat, perPage: nat, currentPage: nat, lastPage: nat)

  /** The requested order, or newest first. */
  function SortOf(q: IndexQuery): Sort
  {
    if q.sort.Some? then q.sort.value else DefaultSort
  }

  /** The number of pages for `total` rows: the least that holds them all, and one for none. */
  function LastPage(total: nat, perPage: nat): (n: nat)
    requires perPage >= 1
    ensures n >= 1
    ensures total == 0 ==> n == 1
    ensures total > 0 ==> (n - 1) * perPage < total <= n * perPage
  {
    if total == 0 then 1
    else
      var n := (total + perPage - 1) / perPage;
      assert n * perPage <= total + perPage - 1 < (n + 1) * perPage;
      n
  }

  /** The listing, filtered and then sorted, before it is cut into pages. */
  function Listing(rows: seq<Record>, q: IndexQuery, fold: string -> string): seq<Record>
  {
    SortRecords(ApplyFilters(rows, q.filters, fold), SortOf(q))
  }

  /**
   * `index`: apply the given filters, order the result, and return the requested
   * page. Page k is the k-th `per_page` slice of the filtered, sorted listing; it
   * holds only matching rows of the table, in the requested order, it is full unless
   * it is the last, and `total` counts every matching row.
   */
  function Index(rows: seq<Record>, q: IndexQuery, fold: string -> string): (p: Paginated)
    ensures p.total == |ApplyFilters(rows, q.filters, fold)|
    ensures p.perPage == EffectivePerPage(q.perPage) && p.currentPage == EffectivePage(q.page)
    ensures p.items == PageSlice(Listing(rows, q, fold), p.perPage, p.currentPage)
    ensures |p.items| <= p.perPage
    ensures p.currentPage == 1 ==> |p.items| == Min(p.perPage, p.total)
    ensures forall x :: x in p.items ==> x in rows && Matches(q.filters, fold, x)
    ensures SortedBy(p.items, SortOf(q))
    ensures p.lastPage == LastPage(p.total, p.perPage)
    ensures p.lastPage >= 1 && (p.total == 0 ==> p.lastPage == 1) && (p.total > 0 ==> (p.lastPage - 1) * p.perPage < p.total <= p.lastPage * p.perPage)
  {
    var filtered := ApplyFilters(rows, q.filters, fold);
    var sorted := Listing(rows, q, fold);
    var perPage := EffectivePerPage(q.perPage);
    var page := EffectivePage(q.page);
    ApplyFiltersMembers(rows, q.filters, fold);
    SortRecordsCorrect(filtered, SortOf(q));
    ListingMembers(filtered, sorted);
    PageSliceSize(sorted, perPage, page);
    PageSliceSorted(sorted, perPage, page, SortOf(q));
    PageSliceMembers(sorted, perPage, page);
    Paginated(PageSlice(sorted, perPage, page), |filtered|, perPage, page, LastPage(|filtered|, perPage))
  }

  /** Reordering keeps the length and the members. */
  lemma ListingMembers(filtered: seq<Record>, sorted: seq<Record>)
    requires multiset(sorted) == multiset(filtered)
    ensures |sorted| == |filtered|
    ensures forall x :: x in sorted ==> x in filtered
  {
    assert |multiset(sorted)| == |multiset(filtered)|;
    forall x | x in sorted ensures x in filtered {
      assert x in multiset(sorted);
    }
  }

  /**
   * Walking pages 1 to `lastPage` of one listing visits it whole, in order: no
   * matching row is skipped or shown twice, and asking `index` for page k gives
   * the k-th of those pages. Every page request sorts afresh, so
   * this carries over to pages fetched by separate requests only when no two
   * matching rows tie on the sort key (`SeparateRequestsAgree`); with ties the
   * database may order them differently each time (`TiesMayRepeatAcrossPages`).
   */
  lemma IndexPagesCoverListing(rows: seq<Record>, q: IndexQuery, fold: string -> string)
    ensures var p := Index(rows, q, fold);
      Pages(Listing(rows, q, fold), p.perPage, p.lastPage) == Listing(rows, q, fold)
    ensures var p := Index(rows, q, fold);
      forall k :: 1 <= k <= p.lastPage ==>
        Index(rows, q.(page := Some(k)), fold).items == PageSlice(Listing(rows, q, fold), p.perPage, k)
  {
    var p := Index(rows, q, fold);
    var listing := Listing(rows, q, fold);
    SortRecordsCorrect(ApplyFilters(rows, q.filters, fold), SortOf(q));
    ListingMembers(ApplyFilters(rows, q.filters, fold), listing);
    PagesCover(listing, p.perPage, p.lastPage);
    assert listing[..|listing|] == listing;
  }

  /**
   * Whatever order a request's sort produces, it is the model's listing as long as
   * no two matching rows tie on the sort key; so pages taken from separate
   * requests are pages of one and the same listing.
   */
  lemma SeparateRequestsAgree(rows: seq<Record>, q: IndexQuery, fold: string -> string, order: seq<Record>)
    requires SortedBy(order, SortOf(q))
    requires multiset(order) == multiset(ApplyFilters(rows, q.filters, fold))
    requires TieFree(ApplyFilters(rows, q.filters, fold), SortOf(q))
    ensures order == Listing(rows, q, fold)
  {
    var filtered := ApplyFilters(rows, q.filters, fold);
    SortRecordsCorrect(filtered, SortOf(q));
    TieFreePermutation(filtered, order, SortOf(q));
    SortedPermutationUnique(order, Listing(rows, q, fold), SortOf(q));
  }

  // ---------------------------------------------------------------------------
  // GET /files/{file}

  /** The 404 both `show` and `download` answer when the row has no blob. */
  function NotInStorageResponse(): Response
  {
    ErrorResponse(404, NotInStorageMessage)
  }

  /**
   * `show`: an unknown id is a 404 from the route binding; a known row whose blob is
   * missing is a 404 with a message; otherwise the row, with 200.
   */
  function Show(svc: FileService, id: int): (r: Response)
    reads svc
    ensures id !in svc.records ==> r == Response(404, FrameworkError)
    ensures r.status == 200 <==> id in svc.records && svc.records[id].path in svc.blobs
    ensures r.status == 200 ==> r.body == Json(true, None, Some(svc.records[id]))
    ensures id in svc.records && svc.records[id].path !in svc.blobs ==>
      r.status == 404 && r.body == Json(false, Some(NotInStorageMessage), None)
  {
    if id !in svc.records then Response(404, FrameworkError)
    else
      var file := svc.records[id];
      if file.path !in svc.blobs then NotInStorageResponse()
      else Response(200, Json(true, None, Some(file)))
  }

  /**
   * `download`: a 404 with a message when the blob is missing, otherwise the blob's
   * bytes with the row's type, name and size as headers.
   */
  function Download(svc: FileService, file: Record): (r: Response)
    reads svc
    ensures r.status == 200 <==> file.path in svc.blobs
    ensures r.status == 200 ==>
      && r.body.Attachment?
      && r.body.download.content == svc.blobs[file.path]
      && r.body.download.headers.contentType == file.mimeType
      && r.body.download.headers.contentLength == file.size
      && DispositionFilename(r.body.download.headers.contentDisposition) == Some(file.name)
    ensures r.status != 200 ==> r.status == 404 && r.body == Json(false, Some(NotInStorageMessage), None)
  {
    if file.path !in svc.blobs then NotInStorageResponse()
    else Response(200, Attachment(svc.GetDownloadResponse(file).value))
  }

  // ---------------------------------------------------------------------------
  // DELETE /files/{file}

  /**
   * `destroy`'s mapping of the service's outcome: 200 on success; 409 when the
   * exception's message is the not-in-storage message; 500 with a generic message
   * for any other exception.
   */
  function DestroyResponse(o: DeleteOutcome): (r: Response)
  {
    match o
    case Deleted => Response(200, Json(true, Some(DeletedMessage), None))
    case DeleteFailed(e) =>
      if ErrorMessage(e) == NotInStorageMessage then ErrorResponse(409, NotInStorageMessage)
      else ErrorResponse(500, DeleteFailedMessage)
  }

  /**
   * The message test picks out exactly the missing-blob case: 409 means the blob
   * was missing, 500 means the disk or the database refused, 200 means both
   * deletes happened; and only success reports `success: true`.
   */
  lemma DestroyResponseStatuses(o: DeleteOutcome)
    ensures DestroyResponse(o).status == 200 <==> o == Deleted
    ensures DestroyResponse(o).status == 409 <==> o == DeleteFailed(NotInStorage)
    ensures DestroyResponse(o).status == 500 <==>
      o == DeleteFailed(StorageDeleteFailed) || o == DeleteFailed(DatabaseDeleteFailed)
    ensures DestroyResponse(o).body.Json? && (DestroyResponse(o).body.success <==> o == Deleted)
  {
    if o.DeleteFailed? && ErrorMessage(o.error) == NotInStorageMessage {
      ErrorMessageInjective(o.error, NotInStorage);
    }
  }

  /**
   * `DELETE /files/{id}`: resolve the row (404 when unknown), pass the token gate
   * (401), then delete the blob and the row and map the outcome. `blobDeleted` and
   * `rowDeleted` are the answers of the disk and the database.
   */
  method Destroy(svc: FileService, token: Option<string>, id: int, blobDeleted: bool, rowDeleted: bool)
    returns (r: Response)
    requires svc.Valid()
    modifies svc
    ensures svc.Valid() && svc.nextId == old(svc.nextId)
    ensures id !in old(svc.records) ==>
      r == Response(404, FrameworkError) && svc.blobs == old(svc.blobs) && svc.records == old(svc.records)
    ensures id in old(svc.records) && !Admits(token) ==>
      r == Unauthorized() && svc.blobs == old(svc.blobs) && svc.records == old(svc.records)
    ensures id in old(svc.records) && Admits(token) ==>
      var file := old(svc.records)[id];
      && (file.path !in old(svc.blobs) ==>
            r == ErrorResponse(409, NotInStorageMessage)
            && svc.blobs == old(svc.blobs) && svc.records == old(svc.records))
      && (file.path in old(svc.blobs) && !blobDeleted ==>
            r == ErrorResponse(500, DeleteFailedMessage)
            && svc.blobs == old(svc.blobs) && svc.records == old(svc.records))
      && (file.path in old(svc.blobs) && blobDeleted && !rowDeleted ==>
            r == ErrorResponse(500, DeleteFailedMessage)
            && svc.blobs == old(svc.blobs) - {file.path} && svc.records == old(svc.records))
      && (file.path in old(svc.blobs) && blobDeleted && rowDeleted ==>
            r == Response(200, Json(true, Some(DeletedMessage), None))
            && svc.blobs == old(svc.blobs) - {file.path} && svc.records == old(svc.records) - {id})
  {
    if id !in svc.records {
      return Response(404, FrameworkError);
    }
    if !Admits(token) {
      return Unauthorized();
    }
    var file := svc.records[id];
    var o := svc.DeleteFile(file, blobDeleted, rowDeleted);
    DestroyResponseStatuses(o);
    r := DestroyResponse(o);
  }

  // ---------------------------------------------------------------------------
  // POST /files

  /**
   * `POST /files`: pass the token gate (401), validate the request (422 with the
   * failed rules), then store the upload and answer 201 with the new row. When the
   * database refuses the insert, the exception becomes a 500 and the written blob
   * stays on the disk.
   */
  method Store(
    svc: FileService, token: Option<string>, req: StoreRequest,
    slug: string -> string, time: nat, randomToken: string, now: Timestamp, created: bool)
    returns (r: Response)
    requires svc.Valid() && IsRandomToken(randomToken)
    modifies svc
    ensures svc.Valid()
    ensures r.status == 201 <==> Admits(token) && Passes(req) && created
    ensures !Admits(token) ==>
      r == Unauthorized() && svc.blobs == old(svc.blobs) && svc.records == old(svc.records) && svc.nextId == old(svc.nextId)
    ensures Admits(token) && !Passes(req) ==>
      r == Response(422, ValidationErrors(Violations(req)))
      && svc.blobs == old(svc.blobs) && svc.records == old(svc.records) && svc.nextId == old(svc.nextId)
    ensures Admits(token) && Passes(req) ==>
      var u := req.file.upload;
      var path := StoragePath(UniqueFilename(u.clientOriginalName, slug, time, randomToken));
      && svc.blobs == old(svc.blobs)[path := u.content]
      && (created ==>
            var row := NewRecord(old(svc.nextId), Fields(u.clientOriginalName, path, u.mimeType, |u.content|, req.description), now);
            && r == Response(201, Json(true, Some(UploadedMessage), Some(row)))
            && old(svc.nextId) !in old(svc.records)
            && svc.records == old(svc.records)[old(svc.nextId) := row]
            && svc.nextId == old(svc.nextId) + 1)
      && (!created ==> r == Response(500, FrameworkError) && svc.records == old(svc.records) && svc.nextId == old(svc.nextId))
  {
    if !Admits(token) {
      return Unauthorized();
    }
    // `authorize()` admits every request (`Authorize`), so no 403 branch is reachable.
    if !Passes(req) {
      return Response(422, ValidationErrors(Violations(req)));
    }
    PassesIff(req);
    var stored := svc.StoreFile(req.file.upload, req.description, slug, time, randomToken, now, created);
    if stored.Failure? {
      return Response(500, FrameworkError);
    }
    r := Response(201, Json(true, Some(UploadedMessage), Some(stored.value)));
  }

  /**
   * An upload followed by its deletion leaves both stores as they were, provided the
   * generated path was not already taken.
   */
  method UploadThenDelete(
    svc: FileService, token: Option<string>, req: StoreRequest,
    slug: string -> string, time: nat, randomToken: string, now: Timestamp)
    returns (stored: Response, deleted: Response)
    requires svc.Valid() && IsRandomToken(randomToken)
    requires Admits(token) && Passes(req)
    requires StoragePath(UniqueFilename(req.file.upload.clientOriginalName, slug, time, randomToken)) !in svc.blobs
    modifies svc
    ensures stored.status == 201 && deleted.status == 200
    ensures svc.blobs == old(svc.blobs) && svc.records == old(svc.records)
  {
    stored := Store(svc, token, req, slug, time, randomToken, now, true);
    var row := stored.body.data.value;
    deleted := Destroy(svc, token, row.id, true, true);
    assert svc.blobs == old(svc.blobs)[row.path := req.file.upload.content] - {row.path};
  }

  /** Deleting a row whose blob is missing answers 409 and keeps the row, however often it is tried. */
  method DestroyMissingBlobTwice(svc: FileService, token: Option<string>, id: int)
    returns (first: Response, second: Response)
    requires svc.Valid() && Admits(token)
    requires id in svc.records && svc.records[id].path !in svc.blobs
    modifies svc
    ensures first == second && first.status == 409
    ensures svc.blobs == old(svc.blobs) && svc.records == old(svc.records)
  {
    first := Destroy(svc, token, id, true, true);
    second := Destroy(svc, token, id, true, true);
  }
}

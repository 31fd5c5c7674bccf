# File asset service — a Dafny model

This project models the core of a small Laravel service that keeps uploaded files. It has two independent stores:
- the public disk, which maps a storage path to bytes;
- the `files` table, which maps an id to a metadata row (name, path, MIME type, size, description, timestamps).

Four routes work on those stores:
- an open listing (`index`) with filters, sorting and pages;
- an open `show`;
- an upload (`store`) and a delete (`destroy`), both behind a bearer-token gate.

The controller also has a `download` action, which no route reaches.

The model is split by module:

| module | file | what it holds |
|---|---|---|
| `Common` | common.dfy | `Option`, `Result`, bytes, the upload value |
| `Strings` | strings.dfy | last/first index of a character, substring search, decimal rendering of the clock reading, code-point order, PHP `trim` (`TrimStart`, `TrimEnd`, `Trim`) and ASCII `strtolower` (`AsciiLower`) |
| `Sequences` | sequences.dfy | ordered filtering (`Where`) and the subsequence relation |
| `FileModel` | file_model.dfy | the `File` row, its fillable fields, the `createdOn` scope |
| `FileNames` | file_names.dfy | `generateUniqueFilename` and the storage path, with a parser that reads a generated name back |
| `FileService` | file_service.dfy | the service as a class over `blobs`, `records` and `nextId`; the download headers |
| `FileQuery` | file_query.dfy | the filters, sort keys and page slices of the listing |
| `StoreFileRequest` | store_file_request.dfy | the upload rules as a list of failed rules, their messages, `authorize` |
| `Http` | http.dfy | responses: a status and a body |
| `TokenAuth` | token_auth.dfy | the token middleware |
| `FileController` | file_controller.dfy | `index`, `show`, `destroy` and `store` as routed, and the `download` action |

Some things the code depends on cannot be seen from the model. They are parameters:
- `Str::slug` is `slug: string -> string`;
- `time()` is `time: nat`;
- `Str::random(8)` is `token`, any eight letters or digits;
- `bearerToken()` is `Option<string>`;
- the creation time of a row is `now`;
- the case folding of partial matches is `fold`;
- the answers of the disk and the database to a delete or an insert are booleans.

Some behaviour of the code is easy to assume otherwise:
- **No orphan cleanup.** When the insert of the row fails, `storeFile` does not remove the blob it has already written. `StoreFile` and `Store` keep the blob in `blobs`.
- **Plain token comparison.** The gate compares the token with plain `!==`, not in constant time. `Admits` is plain equality.
- **No range filters.** The listing has four filters: `mime_type` (exact), `name` and `description` (partial) and `created_on`. There is no size-range filter and no created-after/before filter. The only date filter, `created_on`, is equality of the calendar date.
- **No tie order.** The code leaves the order of rows with equal sort keys to the database, and each page request sorts again. `SortRecordsCorrect` states the order by key and the permutation, nothing about ties. Pages from separate requests fit together only when no two matching rows tie (`SeparateRequestsAgree`). With ties a row can be shown twice and another never (`TiesMayRepeatAcrossPages`).
- **Ascending by default.** A sort field without `-` sorts ascending; `-created_at` is the default.

## Model

| member | source | states |
|---|---|---|
| FileModel.NewRecordFields | app/Models/File.php:13-19 | a created row carries exactly the five fillable fields given, the given id, and equal creation and update times |
| FileModel.DateOfRange | app/Models/File.php:25-28 | a timestamp falls on calendar day d exactly when it lies in d's half-open 86400-second span |
| FileModel.CreatedOn | app/Models/File.php:25-28 | the scope keeps a row iff its creation date is d, and its result is a subsequence of the input (nothing added, changed or reordered) |
| FileModel.CreatedOnSameDayOnly | app/Models/File.php:25-28 | rows created at 10:00 and 15:30 on d are selected; rows created on the day before and the day after are not |
| Strings.ContainsIff | app/Http/Controllers/FileController.php:22-23 | the substring test holds iff the needle occurs at some position of the haystack |
| Strings.DecimalRoundTrip | app/Services/FileService.php:71 | the decimal rendering of the clock reading reads back as the same number |
| Strings.DecimalInjective | app/Services/FileService.php:71 | distinct clock readings render as distinct digit strings |
| Strings.LexLeTotal | app/Http/Controllers/FileController.php:27 | code-point order on names is total |
| Strings.LexLeTransitive | app/Http/Controllers/FileController.php:27 | code-point order on names is transitive |
| Sequences.SubsequenceTransitive | app/Http/Controllers/FileController.php:20-25 | a filter applied to a filtered listing still keeps only rows of the table, in table order |
| Sequences.Where | app/Http/Controllers/FileController.php:20-25 | a where-clause keeps only rows satisfying it and every such row, as a subsequence of the input (how often each is kept: `WhereCounts`) |
| Sequences.WhereCounts | app/Http/Controllers/FileController.php:20-25 | a where-clause keeps each satisfying row as many times as it occurs, and no other row |
| Sequences.WhereWhere | app/Http/Controllers/FileController.php:20-25 | two successive where-clauses select the same rows as their conjunction |
| FileNames.Extension | app/Services/FileService.php:66 | the extension is the text after the last dot, so it contains no dot |
| FileNames.SplitAtLastDot | app/Services/FileService.php:66-67 | a client name is its base name followed by `.` and its extension (or by nothing when it has no dot) |
| FileNames.UniqueFilenameExtension | app/Services/FileService.php:64-74 | the generated name ends in `.` + the client extension, the dot included even when the extension is empty, and has that same extension |
| FileNames.ParseRender | app/Services/FileService.php:73 | a name rendered as slug_time_token.ext, with no `_` in the slug and an 8-character token, parses back into the same four parts |
| FileNames.ParseUniqueFilename | app/Services/FileService.php:64-74 | a generated name parses back into the slug of the base name, the clock reading, the 8-character token and the client extension |
| FileNames.UniqueFilenameInjective | app/Services/FileService.php:64-74 | two generated names are equal only if clock reading, token, slug and extension are all equal |
| FileNames.StoragePathInjective | app/Services/FileService.php:21 | distinct file names are stored under distinct paths in `files/` |
| FileNames.ReportExample | app/Services/FileService.php:64-74 | `Report v2.txt` with slug `report-v2` is stored at `files/report-v2_<time>_<token>.txt` |
| FileService.ErrorMessageInjective | app/Services/FileService.php:36-51 | the three delete failures are raised with three distinct messages |
| FileService.DispositionRoundTrip | app/Services/FileService.php:85 | the Content-Disposition value gives back the client name exactly |
| FileService.HeadersFor | app/Services/FileService.php:79-87 | the download's Content-Type is the row's MIME type, its Content-Length the row's size, and its Content-Disposition names the client file |
| FileService.FileService.StoreFile | app/Services/FileService.php:15-31 | the blob is written at `files/<generated name>` whatever happens next. On insert, the new row gets the next id (one not in use) with the client name, path, MIME type, byte size and description, and only that id is added. On refusal, the table is unchanged and the blob stays |
| FileService.FileService.DeleteFile | app/Services/FileService.php:36-51 | a missing blob fails as NotInStorage, and a refused blob delete fails as StorageDeleteFailed; both leave both stores unchanged. A refused row delete fails as DatabaseDeleteFailed with only the path gone. Success removes exactly that path and that id |
| FileService.FileService.GetFileContent | app/Services/FileService.php:56-59 | the content is present iff a blob is stored at the row's path, and is then that blob |
| FileService.FileService.GetDownloadResponse | app/Services/FileService.php:79-87 | a download exists iff the blob does; it carries the blob's bytes and the row's headers |
| FileService.UploadThenDownload | app/Services/FileService.php:15-31 | after an upload the blob at the row's path is the uploaded bytes, and the row is stored under its id with the client name, type, size and description. A download returns those bytes with the recorded length |
| FileQuery.ApplyFiltersMembers | app/Http/Controllers/FileController.php:20-25 | a row is listed iff it is in the table and passes every given filter (the filters are AND-combined) |
| FileQuery.ApplyFiltersSubsequence | app/Http/Controllers/FileController.php:20-25 | filtering only removes rows: the result is a subsequence of the table |
| FileQuery.MimeTypeFilterExact | app/Http/Controllers/FileController.php:21 | the `mime_type` filter keeps exactly the rows whose type equals the value |
| FileQuery.NameFilterPartial | app/Http/Controllers/FileController.php:22 | the `name` filter keeps exactly the rows whose folded name contains the folded value at some position |
| FileQuery.NoFiltersKeepAll | app/Http/Controllers/FileController.php:19-25 | with no filter given, the whole table is listed |
| FileQuery.InOrderTotal | app/Http/Controllers/FileController.php:26-31 | any two rows are comparable under every sort key and direction |
| FileQuery.InOrderTransitive | app/Http/Controllers/FileController.php:26-31 | the order of every sort key and direction is transitive |
| FileQuery.SortedPermutationUnique | app/Http/Controllers/FileController.php:26-32 | when no two rows tie on the sort key, any two sorted arrangements of the same rows are the same sequence |
| FileQuery.TiesMayRepeatAcrossPages | app/Http/Controllers/FileController.php:26-33 | two distinct rows created in the same second are sorted newest-first in either order, so page 1 of one order and page 2 of the other show the same row twice |
| FileQuery.SortRecordsCorrect | app/Http/Controllers/FileController.php:26-32 | the sorted listing is ordered by the chosen key and direction, and it is a permutation of its input |
| FileQuery.DefaultSortNewestFirst | app/Http/Controllers/FileController.php:32 | with the default sort, no row is created later than one before it |
| FileQuery.SizeSortExample | app/Http/Controllers/FileController.php:28 | sizes 1000, 5000, 2000 sorted by `size` give 1000, 2000, 5000 |
| FileQuery.EffectivePerPage | app/Http/Controllers/FileController.php:33 | the page size is the given positive `per_page`, and 15 when it is absent or 0 |
| FileQuery.EffectivePage | app/Http/Controllers/FileController.php:33 | the page is the given number when at least 1, otherwise page 1 |
| FileQuery.PageSliceSize | app/Http/Controllers/FileController.php:33 | a page holds at most `per_page` rows, and the first holds min(`per_page`, total) |
| FileQuery.PagesCover | app/Http/Controllers/FileController.php:33 | pages 1 to k together are exactly the first k·`per_page` rows, none skipped or repeated |
| FileQuery.TwentyRowsFivePerPage | app/Http/Controllers/FileController.php:33 | twenty rows at five per page give four full pages that together hold all twenty |
| FileQuery.PageSliceSorted | app/Http/Controllers/FileController.php:33 | a page of a sorted listing is sorted |
| FileQuery.PageSliceMembers | app/Http/Controllers/FileController.php:33 | every row of a page is a row of the listing |
| FileController.LastPage | app/Http/Controllers/FileController.php:33 | the last page is exactly 1 for an empty listing, and for a non-empty listing it is the least page count that holds all rows |
| FileController.Index | app/Http/Controllers/FileController.php:17-34 | the page holds only table rows that pass every filter, in the requested (or default) order, at most `per_page` of them, and min(`per_page`, total) on page 1. Page k is the k-th `per_page` slice of the filtered, sorted listing. `total` counts every matching row, and the last page is `LastPage` of it: 1 for an empty listing |
| FileController.IndexPagesCoverListing | app/Http/Controllers/FileController.php:17-34 | pages 1 to the last page of one listing together are the whole filtered, sorted listing, and `index` asked for page k returns the k-th of them |
| FileController.SeparateRequestsAgree | app/Http/Controllers/FileController.php:17-34 | when no two matching rows tie on the sort key, any sorted order a request can produce is the listing, so pages of separate requests are pages of one listing |
| FileController.Show | app/Http/Controllers/FileController.php:50-64 | an unknown id is a 404. A known row answers 200 with the row iff its blob exists, otherwise 404 with "File not found in storage." |
| FileController.Download | app/Http/Controllers/FileController.php:66-76 | 200 iff the blob exists, with the blob's bytes and the row's type, name and size as headers; otherwise 404 with "File not found in storage." |
| FileController.DestroyResponseStatuses | app/Http/Controllers/FileController.php:78-100 | the status is 200 iff the delete succeeded, 409 iff the blob was missing, and 500 iff the disk or the database refused. Only 200 reports success |
| FileController.Destroy | app/Http/Controllers/FileController.php:78-100 | an unknown id is a 404 and a rejected token a 401; both change nothing. Otherwise the service's four outcomes give 409/500/500/200 with the store changes of each |
| FileController.Store | app/Http/Controllers/FileController.php:36-48 | a 201 iff the token is admitted, the request passes and the insert succeeds. A rejected token (401) or failed validation (422 with the failed rules) changes nothing. A 201 adds the row under the next id and advances the counter. A refused insert is a 500 that leaves the table and the counter as they were, and the written blob stays |
| FileController.UploadThenDelete | app/Services/FileService.php:15-51 | uploading to a fresh path and then deleting that row answers 201 then 200, and leaves both stores as they were |
| FileController.DestroyMissingBlobTwice | app/Http/Controllers/FileController.php:78-100 | deleting a row whose blob is missing answers 409 on every attempt and keeps the row |
| StoreFileRequest.WithinSizeLimitBytes | app/Http/Requests/StoreFileRequest.php:20 | the 10240-kilobyte limit admits exactly files of at most 10485760 bytes |
| StoreFileRequest.PassesIff | app/Http/Requests/StoreFileRequest.php:14-29 | a request passes iff a file was uploaded successfully, is at most 10240 KB, has a detected type on the `mimes` list and no PHP client extension, and any non-blank description has at most 500 characters |
| StoreFileRequest.MessageInjective | app/Http/Requests/StoreFileRequest.php:34-43 | each failed rule has its own message |
| StoreFileRequest.Authorize | app/Http/Requests/StoreFileRequest.php:9-12 | this layer admits every request |
| StoreFileRequest.MissingFileRejected | app/Http/Requests/StoreFileRequest.php:17-18 | a request without a file fails only `required`, reported on `file` |
| StoreFileRequest.OversizedFileRejected | app/Http/Requests/StoreFileRequest.php:20 | an 11000 KB file fails the size rule |
| StoreFileRequest.ExecutableRejected | app/Http/Requests/StoreFileRequest.php:21 | an `exe` file fails the type rule |
| StoreFileRequest.DescriptionLimit | app/Http/Requests/StoreFileRequest.php:23-27 | with a 100 KB `.txt` upload, a 501-character description fails only the description rule, reported on `description`, and its first 500 characters pass |
| StoreFileRequest.TextFileAllowed | app/Http/Requests/StoreFileRequest.php:21 | a `.txt` client name detected as `txt` passes the type rule |
| StoreFileRequest.FailedUploadReportedOnce | app/Http/Requests/StoreFileRequest.php:17-22 | a failed upload fails only `uploaded` on `file`, with "The file failed to upload.", and no other file rule is reported |
| StoreFileRequest.PlainValueRejected | app/Http/Requests/StoreFileRequest.php:17-22 | a non-blank value that is not a file fails `file` and `mimes`, and not `required` |
| StoreFileRequest.PhpExtensionRejected | app/Http/Requests/StoreFileRequest.php:21 | a client name with a PHP extension fails the type rule whatever type its content is detected as |
| StoreFileRequest.PhpClientNameRejected | app/Http/Requests/StoreFileRequest.php:21 | a name ending in `.php` fails the type rule whatever its detected type |
| StoreFileRequest.UpperCasePhpRejected | app/Http/Requests/StoreFileRequest.php:21 | an extension that lower-cases to `phtml`, such as `PHTML`, fails the type rule whatever its detected type |
| StoreFileRequest.UpperCasePhtmlNameRejected | app/Http/Requests/StoreFileRequest.php:21 | a client name ending in `.PHTML` fails the type rule whatever its detected type |
| StoreFileRequest.BlankDescriptionNotChecked | app/Http/Requests/StoreFileRequest.php:23-27 | a description of 501 spaces is blank, so the length rule is not run on it |
| Strings.Trim | app/Http/Requests/StoreFileRequest.php:17-27 | trimming gives the empty string exactly when every character is PHP whitespace |
| TokenAuth.Handle | app/Http/Middleware/TokenAuthMiddleware.php:16-28 | an admitted request gets the next handler's response; any other gets 401 with "Unauthorized. Invalid or missing token." |
| TokenAuth.AdmitsExactly | app/Http/Middleware/TokenAuthMiddleware.php:18-20 | a token is admitted iff it is present and has exactly the characters of `artificially-token`, in order |
| TokenAuth.NearMissesRejected | app/Http/Middleware/TokenAuthMiddleware.php:20 | a missing, empty, wrong, differently cased or space-padded token is rejected |
| TokenAuth.RejectionsIndistinguishable | app/Http/Middleware/TokenAuthMiddleware.php:20-25 | every rejected request gets the identical response, whatever its token and whatever comes next |

## Left out

- Laravel's Storage facade, Eloquent, JSON serialisation and route dispatch are not modelled. The stores are maps and the responses are values.
- `Str::slug`, `Str::random`, `time()` and `bearerToken()` are inputs, not definitions. ParseUniqueFilename and UniqueFilenameInjective require what `Str::slug` guarantees: its output has no `_`.
- Case folding in partial matches is the `fold` parameter, applied to the field and to the value before a literal substring test.
- `%` and `_` in a partial filter value match only themselves in the model. Whether they act as `LIKE` wildcards depends on the query library's escaping, which is not part of this model.
- The database collation is not modelled. The exact `mime_type` filter and the `name` sort compare code points, whatever the collation would make of case or accents.
- Spatie QueryBuilder's parsing of the query string is left out, including comma-separated filter values and the rejection of unknown filter and sort keys.
- A negative `per_page` is not modelled: the parameter is a `nat`. An absent or zero `per_page` falls back to 15.
- IndexPagesCoverListing: covers the pages of one listing. Pages fetched by separate requests are covered only when no two matching rows tie on the sort key (SeparateRequestsAgree); ties may repeat a row (TiesMayRepeatAcrossPages). TwentyRowsFivePerPage likewise cuts one fixed sequence.
- Calendar days are computed in one fixed time zone; `whereDate` compares in the database's zone.
- `mimes` detects the type from the content; the model takes the detected extension as an input. Its refusal of PHP client extensions is modelled, with `strtolower` restricted to ASCII letters.
- A file field is absent, a plain string, or an upload with its `isValid` flag. Array values are not modelled, and the description is typed as a string, so its `string` rule always holds.
- The `TrimStrings` and `ConvertEmptyStringsToNull` middlewares are not modelled: a blank value reaches the rules as it was sent, and the rules treat it as absent.
- The `uploaded` message is the framework's English default. It is not set in the repository's own code.
- `storeAs` can return false when the write fails. The model always writes, and it does not model a `false` path being stored.
- StoreFile: the blob write and the insert are two steps. What other requests could see between them is not modelled (no concurrency).
- Show, Destroy: the model follows the routing order of the framework. Laravel's `api` group resolves `{file}` before route middleware, so an unknown id answers 404 before the token is checked.
- The `download` action is modelled on a row, not on a route: no route is registered for it.
- The `id`, `created_at` and `updated_at` columns are filled by the database. The model uses the `nextId` counter and the `now` input instead.
- `app/Console/Commands/FileRandomCommand.php` (random choice, console output, floating-point formatting), the seeders and the factories are not part of this model.

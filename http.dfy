/** The responses the endpoints produce: a status code and a body. */
module Http {
  import opened Common
  import opened FileModel
  import StoreFileRequest
  import FileService

  datatype Body =
    /** `{success, message?, data?}` */
    | Json(success: bool, message: Option<string>, data: Option<Record>)
    /** A file download: bytes and headers. */
    | Attachment(download: FileService.Download)
    /** A 422 with the failed validation rules. */
    | ValidationErrors(errors: seq<StoreFileRequest.Violation>)
    /** A body the framework renders itself: the 404 of a missing row, the 500 of an uncaught exception. */
    | FrameworkError

  datatype Response = Response(status: int, body: Body)

  /** A JSON body that reports a failure with a message. */
  function ErrorResponse(status: int, message: string): Response
  {
    Response(status, Json(false, Some(message), None))
  }
}

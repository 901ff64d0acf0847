/** The upload blueprint: request guards, the page clamps of the list view, and the mapping of
    the upload service's outcomes to responses. */
module UploadRoutes {

  import opened Wrappers
  import opened Models
  import opened ResponseUtils
  import opened Store
  import opened ValidationRoutes
  import UploadService
  import J = Json

  /** `upload_file`'s own guards on the multipart request: no 'file' part, or a part with an
      empty filename. */
  function UploadRequestGuard(filePart: Option<string>): (r: Option<Response>)
    ensures filePart.None? ==> r == Some(ErrorResponse("No file provided", "BAD_REQUEST", 400))
    ensures filePart == Some("") ==> r == Some(ErrorResponse("No file selected", "BAD_REQUEST", 400))
    ensures r.None? <==> Truthy(filePart)
  {
    if filePart.None? then Some(ErrorResponse("No file provided", "BAD_REQUEST", 400))
    else if filePart.value == "" then Some(ErrorResponse("No file selected", "BAD_REQUEST", 400))
    else None
  }

  /** `upload_file` after its guards: the saved document under `data.document`. */
  function UploadView(out: Outcome<J.Value>): (r: Response)
    ensures r.status == 201 <==> out.Ok?
    ensures out.Ok? ==> IsSuccess(r) && SuccessMessage(r) == Some("File uploaded successfully")
    ensures out.ValueErr? ==> r.status == 400 && IsError(r) && ErrorCode(r) == "VALIDATION_ERROR" && ErrorMessage(r) == out.msg
    ensures out.OtherErr? ==> r == ErrorResponse("Upload failed", "INTERNAL_ERROR", 500)
  {
    match out
    case Ok(doc) => SuccessResponse(J.Obj(map["document" := doc]), Some("File uploaded successfully"), 201)
    case ValueErr(msg) => ErrorResponse(msg, "VALIDATION_ERROR", 400)
    case OtherErr => ErrorResponse("Upload failed", "INTERNAL_ERROR", 500)
  }

  /** `max(1, page)`. */
  function ClampPage(requested: int): (p: int)
    ensures p >= 1 && (requested >= 1 ==> p == requested)
  {
    if requested >= 1 then requested else 1
  }

  /** `max(1, min(per_page, limit))`. */
  function ClampPerPage(requested: int, limit: int): (p: int)
    requires limit >= 1
    ensures 1 <= p <= limit
    ensures 1 <= requested <= limit ==> p == requested
  {
    var capped := if requested < limit then requested else limit;
    if capped >= 1 then capped else 1
  }

  /** `list_files`: the clamped page of the caller's documents, newest first as the service
      ordered them. */
  function ListFilesView(rows: seq<Document>, results: map<int, ResultRow>, page: int, perPage: int): (r: Response)
    ensures r.status == 200
    ensures var p := ClampPage(page);
            var n := ClampPerPage(perPage, 50);
            && PaginationOf(r) == Some((|rows|, p, n))
            && 1 <= PaginationOf(r).value.2 <= 50 && PaginationOf(r).value.1 >= 1
    ensures ItemsOf(r, "documents") == Some(UploadService.DocumentDicts(PageOf(rows, ClampPage(page), ClampPerPage(perPage, 50)), results))
  {
    var p := ClampPage(page);
    var n := ClampPerPage(perPage, 50);
    PaginatedResponse(UploadService.DocumentDicts(PageOf(rows, p, n), results), |rows|, p, n, "documents")
  }

  /** `get_file`. */
  function GetFileView(out: Outcome<Document>, hasResult: bool): (r: Response)
    ensures StatusClassifies(out, r)
    ensures out.Ok? ==> IsSuccess(r) && "data" in r.body.fields && r.body.fields["data"] == J.Obj(map["document" := DocumentToDict(out.value, hasResult)])
    ensures out.OtherErr? ==> r == ErrorResponse("Failed to retrieve document", "INTERNAL_ERROR", 500)
  {
    match out
    case Ok(d) => SuccessResponse(J.Obj(map["document" := DocumentToDict(d, hasResult)]))
    case ValueErr(tag) => OwnershipError(tag)
    case OtherErr => ErrorResponse("Failed to retrieve document", "INTERNAL_ERROR", 500)
  }

  /** `delete_file`. */
  function DeleteFileView(out: Outcome<bool>): (r: Response)
    ensures StatusClassifies(out, r)
    ensures out.Ok? ==> IsSuccess(r) && SuccessMessage(r) == Some("Document deleted successfully") && "data" !in r.body.fields
    ensures out.OtherErr? ==> r == ErrorResponse("Delete failed", "INTERNAL_ERROR", 500)
  {
    match out
    case Ok(_) => SuccessResponse(J.Null, Some("Document deleted successfully"))
    case ValueErr(tag) => OwnershipError(tag)
    case OtherErr => ErrorResponse("Delete failed", "INTERNAL_ERROR", 500)
  }

  /** Through the view, another user's document is refused with 403 and a missing one with
      404, for reading and for deleting alike; deleting someone else's document changes
      nothing. */
  lemma OwnershipThroughViews(documents: map<int, Document>, results: map<int, ResultRow>, docId: int, userId: int)
    ensures docId !in documents ==>
              GetFileView(UploadService.GetDocument(documents, docId, userId), false).status == 404
              && DeleteFileView(UploadService.DeleteSpec(documents, results, docId, userId).0).status == 404
    ensures docId in documents && documents[docId].userId != userId ==>
              GetFileView(UploadService.GetDocument(documents, docId, userId), false).status == 403
              && DeleteFileView(UploadService.DeleteSpec(documents, results, docId, userId).0).status == 403
              && UploadService.DeleteSpec(documents, results, docId, userId).1 == documents
  {
  }
}

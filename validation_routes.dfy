/** The validation blueprint: each view maps its service's outcome to a response. A
    `ValueError` tag is `ValueErr(tag)`; any other exception is `OtherErr`. */
module ValidationRoutes {

  import opened Wrappers
  import opened Models
  import opened ResponseUtils
  import opened Store
  import opened ValidationService
  import J = Json

  /** The mapping the validation and upload views share for a `ValueError`: NOT_FOUND is
      404, FORBIDDEN is 403, and any other tag is a 400 'ERROR' whose message is the tag. */
  function OwnershipError(tag: string): (r: Response)
    ensures IsError(r)
    ensures r.status == 404 <==> tag == "NOT_FOUND"
    ensures r.status == 403 <==> tag == "FORBIDDEN"
    ensures r.status == 400 <==> tag != "NOT_FOUND" && tag != "FORBIDDEN"
    ensures tag == "NOT_FOUND" ==> ErrorCode(r) == "NOT_FOUND" && ErrorMessage(r) == "Document not found"
    ensures tag == "FORBIDDEN" ==> ErrorCode(r) == "FORBIDDEN" && ErrorMessage(r) == "Access denied"
    ensures r.status == 400 ==> ErrorCode(r) == "ERROR" && ErrorMessage(r) == tag
  {
    if tag == "NOT_FOUND" then ErrorResponse("Document not found", "NOT_FOUND", 404)
    else if tag == "FORBIDDEN" then ErrorResponse("Access denied", "FORBIDDEN", 403)
    else ErrorResponse(tag, "ERROR", 400)
  }

  /** The body's `data.result`, when there is one. */
  function ResultOf(r: Response): Option<J.Value> {
    if r.body.Obj? && "data" in r.body.fields && r.body.fields["data"].Obj? && "result" in r.body.fields["data"].fields
    then Some(r.body.fields["data"].fields["result"]) else None
  }

  /** The status of a view that catches `ValueError` with the ownership mapping and any
      other exception as a 500: 200 exactly on success, 500 exactly on an unexpected error. */
  predicate StatusClassifies<T>(out: Outcome<T>, r: Response) {
    && (r.status == 200 <==> out.Ok?)
    && (r.status == 500 <==> out.OtherErr?)
    && (out.ValueErr? ==> r == OwnershipError(out.msg))
  }

  /** `validate`. */
  function ValidateView(out: Outcome<ResultRow>): (r: Response)
    ensures StatusClassifies(out, r)
    ensures out.Ok? ==>
              IsSuccess(r) && SuccessMessage(r) == Some("Validation complete") && ResultOf(r) == Some(ResultToDict(out.value))
    ensures out.OtherErr? ==> r == ErrorResponse("Validation failed", "INTERNAL_ERROR", 500)
  {
    match out
    case Ok(row) => SuccessResponse(J.Obj(map["result" := ResultToDict(row)]), Some("Validation complete"))
    case ValueErr(tag) => OwnershipError(tag)
    case OtherErr => ErrorResponse("Validation failed", "INTERNAL_ERROR", 500)
  }

  /** An account at its limit is told so in a plain 400 whose message is the bare tag. */
  lemma UsageLimitReachesClientAsText(
    users: map<int, User>, documents: map<int, Document>, results: map<int, ResultRow>,
    docId: int, userId: int, p: Pipeline, lookup: string -> Option<RecordMatch>, resultId: int, now: nat)
    requires userId in users && AtUsageLimit(users[userId])
    ensures var r := ValidateView(ValidateSpec(users, documents, results, docId, userId, p, lookup, resultId, now).out);
            r.status == 400 && IsError(r) && ErrorCode(r) == "ERROR" && ErrorMessage(r) == "USAGE_LIMIT_REACHED"
  {
  }

  /** `revalidate`. */
  function RevalidateView(out: Outcome<ResultRow>): (r: Response)
    ensures StatusClassifies(out, r)
    ensures out.Ok? ==>
              IsSuccess(r) && SuccessMessage(r) == Some("Re-validation complete") && ResultOf(r) == Some(ResultToDict(out.value))
    ensures out.OtherErr? ==> r == ErrorResponse("Re-validation failed", "INTERNAL_ERROR", 500)
  {
    match out
    case Ok(row) => SuccessResponse(J.Obj(map["result" := ResultToDict(row)]), Some("Re-validation complete"))
    case ValueErr(tag) => OwnershipError(tag)
    case OtherErr => ErrorResponse("Re-validation failed", "INTERNAL_ERROR", 500)
  }

  /** What the application's catch-all handler answers for an exception a view lets escape. */
  function UnhandledError(): (r: Response)
    ensures r.status == 500 && IsError(r) && ErrorCode(r) == "INTERNAL_ERROR"
  {
    ErrorResponse("An unexpected error occurred", "INTERNAL_ERROR", 500)
  }

  /** `results`. It catches only `ValueError`; anything else reaches the catch-all handler. */
  function ResultsView(out: Outcome<ResultRow>): (r: Response)
    ensures r.status == 200 <==> out.Ok?
    ensures out.Ok? ==> IsSuccess(r) && SuccessMessage(r) == None && ResultOf(r) == Some(ResultToDict(out.value))
    ensures out == ValueErr("NOT_VALIDATED") ==>
              r.status == 404 && IsError(r) && ErrorCode(r) == "NOT_VALIDATED" && ErrorMessage(r) == "Document has not been validated yet"
    ensures out.ValueErr? && out.msg != "NOT_VALIDATED" ==> r == OwnershipError(out.msg)
    ensures out.OtherErr? ==> r == UnhandledError()
  {
    match out
    case Ok(row) => SuccessResponse(J.Obj(map["result" := ResultToDict(row)]))
    case ValueErr(tag) =>
      if tag == "NOT_VALIDATED" then ErrorResponse("Document has not been validated yet", "NOT_VALIDATED", 404)
      else OwnershipError(tag)
    case OtherErr => UnhandledError()
  }

  /** Read through the view, a document is missing (404 NOT_FOUND), someone else's (403),
      not validated yet (404 NOT_VALIDATED), or returned with its result. */
  lemma ResultsViewOfGetResult(documents: map<int, Document>, results: map<int, ResultRow>, docId: int, userId: int)
    ensures var r := ResultsView(GetResult(documents, results, docId, userId));
            && (docId !in documents ==> r.status == 404 && IsError(r) && ErrorCode(r) == "NOT_FOUND")
            && (docId in documents && documents[docId].userId != userId ==> r.status == 403)
            && (docId in documents && documents[docId].userId == userId && docId !in results ==>
                  r.status == 404 && IsError(r) && ErrorCode(r) == "NOT_VALIDATED")
            && (r.status == 200 <==> docId in documents && documents[docId].userId == userId && docId in results)
  {
  }

  /** `history`'s per_page: at most 50, with no lower bound. */
  function HistoryPerPage(requested: int): (p: int)
    ensures p <= 50 && (requested <= 50 ==> p == requested)
  {
    if requested < 50 then requested else 50
  }

  /** `history`: the page of rows and the pagination block as the view reports them. The
      page is never clamped, and no verdict filter is passed to the service. */
  function HistoryView(rows: seq<HistoryEntry>, page: int, requestedPerPage: int): (r: Response)
    ensures r.status == 200
    ensures PaginationOf(r) == Some((|rows|, page, if HistoryPerPage(requestedPerPage) >= 1 then HistoryPerPage(requestedPerPage) else 1))
    ensures var shown := OrmPage(rows, page, HistoryPerPage(requestedPerPage));
            && ItemsOf(r, "results").Some? && |ItemsOf(r, "results").value| == |shown|
            && forall i :: 0 <= i < |shown| ==> ItemsOf(r, "results").value[i] == HistoryEntryToDict(shown[i])
  {
    var perPage := HistoryPerPage(requestedPerPage);
    var shown := OrmPage(rows, page, perPage);
    PaginatedResponse(seq(|shown|, i requires 0 <= i < |shown| => HistoryEntryToDict(shown[i])), |rows|, page, perPage, "results")
  }

  /** A per_page of 0 or less is echoed to the client as 1 and the page count becomes the
      total, while the rows shown follow the query's own fallback. */
  lemma HistoryNonPositivePerPage(rows: seq<HistoryEntry>, page: int, requestedPerPage: int)
    requires requestedPerPage <= 0
    ensures var r := HistoryView(rows, page, requestedPerPage);
            PaginationOf(r).value.2 == 1 && PagesOf(r) == Some(|rows|)
  {
  }
}

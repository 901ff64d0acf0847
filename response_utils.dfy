/** The response envelope every backend endpoint returns: `{success, message?, data?}` on
    success, `{success: false, error: {code, message}}` on failure, and the paginated form. */
module ResponseUtils {

  import opened Wrappers
  import J = Json

  /** A Flask view's return value: the JSON body and the HTTP status. */
  datatype Response = Response(body: J.Value, status: int)

  /** `success_response(data=None, message=None, status_code=200)`. Python's `None` for
      `data` is the JSON `Null`. */
  function SuccessResponse(data: J.Value := J.Null, message: Option<string> := None, status: int := 200): (r: Response)
    ensures r.status == status
    ensures r.body.Obj? && "success" in r.body.fields && r.body.fields["success"] == J.Bool(true)
    ensures r.body.fields.Keys <= {"success", "message", "data"}
    ensures "message" in r.body.fields <==> Truthy(message)
    ensures Truthy(message) ==> r.body.fields["message"] == J.Str(message.value)
    ensures "data" in r.body.fields <==> data != J.Null
    ensures data != J.Null ==> r.body.fields["data"] == data
  {
    var withMessage := if Truthy(message) then map["message" := J.Str(message.value)] else map[];
    var withData := if data != J.Null then map["data" := data] else map[];
    Response(J.Obj(map["success" := J.Bool(true)] + withMessage + withData), status)
  }

  /** `error_response(message, error_code='ERROR', status_code=400)`. */
  function ErrorResponse(message: string, code: string := "ERROR", status: int := 400): (r: Response)
    ensures r.status == status
    ensures IsError(r) && ErrorCode(r) == code && ErrorMessage(r) == message
    ensures r.body.fields.Keys == {"success", "error"}
  {
    Response(J.Obj(map[
      "success" := J.Bool(false),
      "error" := J.Obj(map["code" := J.Str(code), "message" := J.Str(message)])]), status)
  }

  /** The shape of an error envelope. */
  predicate IsError(r: Response) {
    && r.body.Obj?
    && "success" in r.body.fields && r.body.fields["success"] == J.Bool(false)
    && "error" in r.body.fields && r.body.fields["error"].Obj?
    && "code" in r.body.fields["error"].fields && r.body.fields["error"].fields["code"].Str?
    && "message" in r.body.fields["error"].fields && r.body.fields["error"].fields["message"].Str?
  }

  function ErrorCode(r: Response): string
    requires IsError(r)
  {
    r.body.fields["error"].fields["code"].s
  }

  function ErrorMessage(r: Response): string
    requires IsError(r)
  {
    r.body.fields["error"].fields["message"].s
  }

  /** The success envelope with its message, when it has one. */
  predicate IsSuccess(r: Response) {
    r.body.Obj? && "success" in r.body.fields && r.body.fields["success"] == J.Bool(true)
  }

  function SuccessMessage(r: Response): Option<string> {
    if r.body.Obj? && "message" in r.body.fields && r.body.fields["message"].Str?
    then Some(r.body.fields["message"].s) else None
  }

  /** `(total + per_page - 1) // per_page`; both operands are non-negative, so Python's
      floor division and Dafny's division agree. */
  function Pages(total: nat, perPage: int): nat
    requires perPage >= 1
  {
    (total + perPage - 1) / perPage
  }

  /** `pages` is the ceiling of total / per_page. */
  lemma PagesIsCeiling(total: nat, perPage: int)
    requires perPage >= 1
    ensures Pages(total, perPage) * perPage >= total
    ensures total > 0 ==> (Pages(total, perPage) - 1) * perPage < total
    ensures total == 0 ==> Pages(total, perPage) == 0
  {
    var n := total + perPage - 1;
    var q, r := n / perPage, n % perPage;
    assert n == q * perPage + r && 0 <= r < perPage;
    assert (q - 1) * perPage == q * perPage - perPage;
  }

  /** `paginated_response(items, total, page, per_page, item_name='items')`. */
  function PaginatedResponse(items: seq<J.Value>, total: nat, page: int, perPage: int, itemName: string := "items"): (r: Response)
    ensures r.status == 200 && IsSuccess(r)
    ensures r.body.fields.Keys == {"success", "data"} && r.body.fields["data"].Obj?
    ensures "pagination" in r.body.fields["data"].fields
    ensures itemName != "pagination" ==>
              itemName in r.body.fields["data"].fields && r.body.fields["data"].fields[itemName] == J.Arr(items)
    ensures PaginationOf(r) == Some((total, page, if perPage >= 1 then perPage else 1))
    ensures var p := (if perPage >= 1 then perPage else 1);
            PagesOf(r) == Some(Pages(total, p))
    ensures itemName != "pagination" ==> ItemsOf(r, itemName) == Some(items)
  {
    var p := if perPage >= 1 then perPage else 1;
    Response(J.Obj(map[
      "success" := J.Bool(true),
      "data" := J.Obj(map[
        itemName := J.Arr(items),
        "pagination" := J.Obj(map[
          "total" := J.Int(total),
          "page" := J.Int(page),
          "per_page" := J.Int(p),
          "pages" := J.Int(Pages(total, p))])])]), 200)
  }

  function PaginationField(r: Response): Option<map<string, J.Value>> {
    if r.body.Obj? && "data" in r.body.fields && r.body.fields["data"].Obj?
       && "pagination" in r.body.fields["data"].fields && r.body.fields["data"].fields["pagination"].Obj?
    then Some(r.body.fields["data"].fields["pagination"].fields) else None
  }

  /** The list a paginated answer carries under `itemName`. */
  function ItemsOf(r: Response, itemName: string): Option<seq<J.Value>> {
    if r.body.Obj? && "data" in r.body.fields && r.body.fields["data"].Obj?
       && itemName in r.body.fields["data"].fields && r.body.fields["data"].fields[itemName].Arr?
    then Some(r.body.fields["data"].fields[itemName].items) else None
  }

  /** `(total, page, per_page)` as the pagination block reports them. */
  function PaginationOf(r: Response): Option<(int, int, int)> {
    var p := PaginationField(r);
    if p.Some? && "total" in p.value && p.value["total"].Int? && "page" in p.value && p.value["page"].Int?
       && "per_page" in p.value && p.value["per_page"].Int?
    then Some((p.value["total"].i, p.value["page"].i, p.value["per_page"].i)) else None
  }

  function PagesOf(r: Response): Option<int> {
    var p := PaginationField(r);
    if p.Some? && "pages" in p.value && p.value["pages"].Int? then Some(p.value["pages"].i) else None
  }

  /** The reported per_page is at least 1 whatever the caller passed, and the reported page
      count covers the total without a spare page. */
  lemma PaginationBounds(items: seq<J.Value>, total: nat, page: int, perPage: int, itemName: string)
    ensures var r := PaginatedResponse(items, total, page, perPage, itemName);
            PaginationOf(r).Some? && PaginationOf(r).value.2 >= 1 && PagesOf(r).Some?
            && PagesOf(r).value * PaginationOf(r).value.2 >= total
            && (total > 0 ==> (PagesOf(r).value - 1) * PaginationOf(r).value.2 < total)
            && (total == 0 ==> PagesOf(r).value == 0)
  {
    PagesIsCeiling(total, if perPage >= 1 then perPage else 1);
  }

  // ---------------------------------------------------------------- Python call binding

  /** The parameters of `success_response`, in positional order. */
  const SuccessParams: seq<string> := ["data", "message", "status_code"]

  /** Python's binding rules: at most three positional arguments, only known keywords, and
      no parameter given both positionally and by keyword. Anything else is a TypeError. */
  predicate BindsSuccess(positional: seq<J.Value>, keywords: map<string, J.Value>) {
    && |positional| <= 3
    && (forall k :: k in keywords ==> k in SuccessParams)
    && (forall i :: 0 <= i < |positional| ==> SuccessParams[i] !in keywords)
  }

  /** The argument bound to the `idx`-th parameter, if any. */
  function BoundArg(positional: seq<J.Value>, keywords: map<string, J.Value>, idx: nat): Option<J.Value>
    requires idx < 3
  {
    if idx < |positional| then Some(positional[idx])
    else if SuccessParams[idx] in keywords then Some(keywords[SuccessParams[idx]])
    else None
  }

  /** A bound message as the `Option<string>` the response builder takes: `None` when it is
      absent or `None`, the string when it is one. */
  function MessageArg(a: Option<J.Value>): Option<Option<string>> {
    if a.None? || a.value.Null? then Some(None)
    else if a.value.Str? then Some(Some(a.value.s))
    else None
  }

  function StatusArg(a: Option<J.Value>): Option<int> {
    if a.None? then Some(200)
    else if a.value.Int? then Some(a.value.i)
    else None
  }

  /** A call `success_response(*positional, **keywords)`. A binding error is a TypeError
      (`OtherErr`); a message that is not a string or a status that is not an integer is
      outside the model and also reported as `OtherErr`. */
  function CallSuccessResponse(positional: seq<J.Value>, keywords: map<string, J.Value>): (r: Outcome<Response>)
    ensures !BindsSuccess(positional, keywords) ==> r == OtherErr
    ensures r.Ok? ==>
              && BindsSuccess(positional, keywords)
              && var data := BoundArg(positional, keywords, 0);
                 var message := MessageArg(BoundArg(positional, keywords, 1));
                 var status := StatusArg(BoundArg(positional, keywords, 2));
                 message.Some? && status.Some?
                 && r.value == SuccessResponse(if data.Some? then data.value else J.Null, message.value, status.value)
  {
    if !BindsSuccess(positional, keywords) then OtherErr
    else
      var data := BoundArg(positional, keywords, 0);
      var message := MessageArg(BoundArg(positional, keywords, 1));
      var status := StatusArg(BoundArg(positional, keywords, 2));
      if message.None? || status.None? then OtherErr
      else Ok(SuccessResponse(if data.Some? then data.value else J.Null, message.value, status.value))
  }

  /** Passing everything by keyword is the response builder itself. */
  lemma KeywordCallIsSuccessResponse(data: J.Value, message: Option<string>, status: int)
    ensures CallSuccessResponse([], map["data" := data, "message" := (if message.Some? then J.Str(message.value) else J.Null), "status_code" := J.Int(status)])
            == Ok(SuccessResponse(data, message, status))
  {
    var kw := map["data" := data, "message" := (if message.Some? then J.Str(message.value) else J.Null), "status_code" := J.Int(status)];
    assert forall k :: k in kw ==> k in SuccessParams by {
      assert SuccessParams[0] == "data" && SuccessParams[1] == "message" && SuccessParams[2] == "status_code";
    }
  }

  /** `success_response('…', data=…, status_code=201)`: the message string is bound to `data`
      positionally and `data` again by keyword, so the call raises a TypeError. */
  lemma MessageFirstWithDataRaises(message: string, data: J.Value)
    ensures CallSuccessResponse([J.Str(message)], map["data" := data, "status_code" := J.Int(201)]) == OtherErr
  {
    assert SuccessParams[0] in map["data" := data, "status_code" := J.Int(201)];
  }

  /** `success_response('…', status_code=201)`: the message string becomes the `data` payload
      and the envelope carries no `message`. */
  lemma MessageFirstLandsInData(message: string)
    ensures var r := CallSuccessResponse([J.Str(message)], map["status_code" := J.Int(201)]);
            && r.Ok? && r.value.status == 201
            && "data" in r.value.body.fields && r.value.body.fields["data"] == J.Str(message)
            && "message" !in r.value.body.fields
  {
    var kw := map["status_code" := J.Int(201)];
    assert SuccessParams[0] == "data" && SuccessParams[2] == "status_code";
    assert forall k :: k in kw ==> k in SuccessParams;
    assert BindsSuccess([J.Str(message)], kw);
  }
}

/** The institution blueprint: an institution account adds the ground-truth records documents
    are checked against, one at a time or in bulk, lists them a page at a time, and reads a
    count of them. The caller is the user `token_required` loaded. The blueprint also applies
    `institution_required`, which the auth middleware does not define; the views are stated as
    if that import succeeded and the decorator let the caller through. */
module InstitutionRoutes {

  import opened Wrappers
  import opened Strings
  import opened Models
  import opened ResponseUtils
  import opened Store
  import opened ValidationRoutes
  import opened UploadRoutes
  import J = Json

  // ---------------------------------------------------------------- adding one record

  const RequiredMessage := "Name and ID number are required"
  const AddedMessage := "Record added successfully"

  /** `data.get(key)`, with Python's `None` as `J.Null`. */
  function Get(fields: map<string, J.Value>, key: string, default: J.Value := J.Null): J.Value {
    if key in fields then fields[key] else default
  }

  /** The record `add_record` builds from a JSON object, or the reason it builds none:
      `ValueErr` for the required-fields guard, `OtherErr` for a truthy name or id number that
      is not a string (outside this model). Metadata defaults to an empty object. */
  function RecordFromBody(fields: map<string, J.Value>, institutionId: int, id: int, now: nat): (r: Outcome<InstitutionRecord>)
    ensures r == ValueErr(RequiredMessage) <==> !J.IsTruthy(Get(fields, "name")) || !J.IsTruthy(Get(fields, "id_number"))
    ensures r.Ok? <==> Get(fields, "name").Str? && Get(fields, "name").s != ""
                       && Get(fields, "id_number").Str? && Get(fields, "id_number").s != ""
    ensures r.Ok? ==>
              && r.value.institutionId == institutionId && r.value.id == id
              && J.Str(r.value.name) == fields["name"] && J.Str(r.value.idNumber) == fields["id_number"]
              && r.value.metadataFields == Get(fields, "metadata", J.Obj(map[]))
              && r.value.createdAt == Some(now)
  {
    var name := Get(fields, "name");
    var idNumber := Get(fields, "id_number");
    if !J.IsTruthy(name) || !J.IsTruthy(idNumber) then ValueErr(RequiredMessage)
    else if !name.Str? || !idNumber.Str? then OtherErr
    else Ok(InstitutionRecord(id, institutionId, name.s, idNumber.s, Get(fields, "metadata", J.Obj(map[])), Some(now)))
  }

  /** `add_record` as written: after the commit it calls
      `success_response('Record added successfully', data=…, status_code=201)`, which binds the
      message to `data` and then `data` again by keyword. The TypeError is caught by the view's
      own handler, so the client is told the add failed while the record stays stored. */
  function AddRecordAsWritten(body: J.Value, records: map<int, InstitutionRecord>, institutionId: int, newId: int, now: nat)
    : (r: (Response, map<int, InstitutionRecord>))
    ensures body.Obj? && RecordFromBody(body.fields, institutionId, newId, now).Ok? ==>
              r.1 == records[newId := RecordFromBody(body.fields, institutionId, newId, now).value]
  {
    if !body.Obj? then (UnhandledError(), records)
    else match RecordFromBody(body.fields, institutionId, newId, now)
      case ValueErr(msg) => (ErrorResponse(msg, "VALIDATION_ERROR", 400), records)
      case OtherErr => (ErrorResponse("Failed to add record", "INTERNAL_ERROR", 500), records)
      case Ok(rec) =>
        var stored := records[newId := rec];
        var call := CallSuccessResponse([J.Str(AddedMessage)], map["data" := J.Obj(map["record" := RecordToDict(rec)]), "status_code" := J.Int(201)]);
        if call.Ok? then (call.value, stored)
        else (ErrorResponse("Failed to add record", "INTERNAL_ERROR", 500), stored)
  }

  /** The discrepancy: a well-formed request stores its record and still answers 500. */
  lemma AddRecordAsWrittenStoresAndFails(name: string, idNumber: string, records: map<int, InstitutionRecord>, institutionId: int, newId: int, now: nat)
    requires name != "" && idNumber != ""
    ensures var body := J.Obj(map["name" := J.Str(name), "id_number" := J.Str(idNumber)]);
            var r := AddRecordAsWritten(body, records, institutionId, newId, now);
            && r.0 == ErrorResponse("Failed to add record", "INTERNAL_ERROR", 500)
            && newId in r.1 && r.1[newId].name == name && r.1[newId].institutionId == institutionId
  {
    var fields := map["name" := J.Str(name), "id_number" := J.Str(idNumber)];
    assert "name" in fields && "id_number" in fields;
    var rec := RecordFromBody(fields, institutionId, newId, now).value;
    MessageFirstWithDataRaises(AddedMessage, J.Obj(map["record" := RecordToDict(rec)]));
  }

  /** `add_record` as intended: the response the keyword call would build, 201 with the new
      record. Nothing is stored unless the answer is 201, and the stored record belongs to the
      caller. */
  function AddRecordView(body: J.Value, records: map<int, InstitutionRecord>, institutionId: int, newId: int, now: nat)
    : (r: (Response, map<int, InstitutionRecord>))
    ensures r.0.status in {201, 400, 500}
    ensures r.0.status != 201 ==> r.1 == records
    ensures r.0.status == 400 ==> r.0 == ErrorResponse(RequiredMessage, "VALIDATION_ERROR", 400)
    ensures body.Obj? && (!J.IsTruthy(Get(body.fields, "name")) || !J.IsTruthy(Get(body.fields, "id_number"))) ==>
              r.0.status == 400
    ensures r.0.status == 201 ==>
              && newId in r.1 && r.1 == records[newId := r.1[newId]]
              && r.1[newId].institutionId == institutionId && r.1[newId].id == newId
              && IsSuccess(r.0) && SuccessMessage(r.0) == Some(AddedMessage) && "data" in r.0.body.fields
              && r.0.body.fields["data"] == J.Obj(map["record" := RecordToDict(r.1[newId])])
  {
    if !body.Obj? then (UnhandledError(), records)
    else match RecordFromBody(body.fields, institutionId, newId, now)
      case ValueErr(msg) => (ErrorResponse(msg, "VALIDATION_ERROR", 400), records)
      case OtherErr => (ErrorResponse("Failed to add record", "INTERNAL_ERROR", 500), records)
      case Ok(rec) =>
        (SuccessResponse(J.Obj(map["record" := RecordToDict(rec)]), Some(AddedMessage), 201), records[newId := rec])
  }

  /** The intended response is exactly what the keyword form of the call builds. */
  lemma AddRecordViewIsKeywordCall(body: J.Value, records: map<int, InstitutionRecord>, institutionId: int, newId: int, now: nat)
    requires body.Obj? && RecordFromBody(body.fields, institutionId, newId, now).Ok?
    ensures var rec := RecordFromBody(body.fields, institutionId, newId, now).value;
            var data := J.Obj(map["record" := RecordToDict(rec)]);
            Ok(AddRecordView(body, records, institutionId, newId, now).0) ==
            CallSuccessResponse([], map["data" := data, "message" := J.Str(AddedMessage), "status_code" := J.Int(201)])
  {
    var rec := RecordFromBody(body.fields, institutionId, newId, now).value;
    KeywordCallIsSuccessResponse(J.Obj(map["record" := RecordToDict(rec)]), Some(AddedMessage), 201);
  }

  /** `add_record` on the database, with the intended response. */
  method AddRecord(db: Database, institutionId: int, body: J.Value, now: nat) returns (resp: Response)
    requires db.Valid() && institutionId in db.users
    modifies db`records, db`nextRecordId
    ensures db.Valid()
    ensures (resp, db.records) == AddRecordView(body, old(db.records), institutionId, old(db.nextRecordId), now)
    ensures db.nextRecordId == if resp.status == 201 then old(db.nextRecordId) + 1 else old(db.nextRecordId)
  {
    var r := AddRecordView(body, db.records, institutionId, db.nextRecordId, now);
    resp := r.0;
    if resp.status == 201 {
      db.records := r.1;
      db.nextRecordId := db.nextRecordId + 1;
    }
  }

  // ---------------------------------------------------------------- bulk add

  const NoRecordsMessage := "No records provided"

  /** The record built from one item of the bulk list. Items are not checked the way
      `add_record` checks its body: an empty name is accepted. A non-object item raises in
      the loop, and a missing or null name or id number violates the NOT NULL columns at the
      commit; a non-string value is outside this model. Either way no record is built. */
  function ItemRecord(item: J.Value, institutionId: int, id: int, now: nat): (r: Option<InstitutionRecord>)
    ensures r.Some? <==> item.Obj? && Get(item.fields, "name").Str? && Get(item.fields, "id_number").Str?
    ensures r.Some? ==>
              && r.value.institutionId == institutionId && r.value.id == id
              && J.Str(r.value.name) == item.fields["name"] && J.Str(r.value.idNumber) == item.fields["id_number"]
              && r.value.metadataFields == Get(item.fields, "metadata", J.Obj(map[]))
  {
    if !item.Obj? then None
    else
      var name := Get(item.fields, "name");
      var idNumber := Get(item.fields, "id_number");
      if !name.Str? || !idNumber.Str? then None
      else Some(InstitutionRecord(id, institutionId, name.s, idNumber.s, Get(item.fields, "metadata", J.Obj(map[])), Some(now)))
  }

  /** The records built from the whole list, ids allocated in order from `firstId`; `None`
      when any item builds none, since the commit is all or nothing. */
  function BuildRecords(items: seq<J.Value>, institutionId: int, firstId: int, now: nat): (r: Option<seq<InstitutionRecord>>)
    ensures r.Some? <==> forall i :: 0 <= i < |items| ==> ItemRecord(items[i], institutionId, firstId + i, now).Some?
    ensures r.Some? ==>
              && |r.value| == |items|
              && forall i :: 0 <= i < |items| ==> r.value[i] == ItemRecord(items[i], institutionId, firstId + i, now).value
    decreases |items|
  {
    if items == [] then Some([])
    else
      var n := |items| - 1;
      var prev := BuildRecords(items[..n], institutionId, firstId, now);
      var last := ItemRecord(items[n], institutionId, firstId + n, now);
      if prev.None? || last.None? then None else Some(prev.value + [last.value])
  }

  /** The ids `lo`, …, `lo + n - 1`. */
  function {:induction false} IdRange(lo: int, n: nat): (r: set<int>)
    ensures forall id :: id in r <==> lo <= id < lo + n
    ensures |r| == n
    decreases n
  {
    if n == 0 then {}
    else
      var prev := IdRange(lo, n - 1);
      assert lo + n - 1 !in prev;
      prev + {lo + n - 1}
  }

  /** The table after a successful commit: the new records under ids `firstId` onwards. */
  function Inserted(records: map<int, InstitutionRecord>, added: seq<InstitutionRecord>, firstId: int): (m: map<int, InstitutionRecord>)
    ensures forall id :: id in m <==> id in records || id in IdRange(firstId, |added|)
    ensures forall id :: id in IdRange(firstId, |added|) ==> m[id] == added[id - firstId]
    ensures forall id :: id in records && id !in IdRange(firstId, |added|) ==> m[id] == records[id]
  {
    records + map id | id in IdRange(firstId, |added|) :: added[id - firstId]
  }

  /** The success message, with the count in decimal. */
  function AddedCountMessage(n: nat): string {
    NatToString(n) + " records added successfully"
  }

  /** The records a bulk request stores, or `None` when it stores none; its error response
      otherwise. Shared by both forms of the view below. */
  function BulkOutcome(body: J.Value, records: map<int, InstitutionRecord>, institutionId: int, firstId: int, now: nat)
    : (r: Outcome<seq<InstitutionRecord>>)
    ensures r.Ok? ==> body.Obj? && J.IsTruthy(Get(body.fields, "records", J.Arr([])))
                      && Get(body.fields, "records", J.Arr([])).Arr?
                      && Some(r.value) == BuildRecords(Get(body.fields, "records", J.Arr([])).items, institutionId, firstId, now)
    ensures r.Ok? ==> r.value != []
  {
    if !body.Obj? then OtherErr
    else
      var list := Get(body.fields, "records", J.Arr([]));
      if !J.IsTruthy(list) then ValueErr(NoRecordsMessage)
      else if !list.Arr? then ValueErr("")
      else match BuildRecords(list.items, institutionId, firstId, now)
        case Some(added) => Ok(added)
        case None => ValueErr("")
  }

  /** How a failed bulk request answers: no object body reaches the catch-all handler, an
      empty list is a 400, and anything that raises in the loop or at the commit is a 500. */
  function BulkError(out: Outcome<seq<InstitutionRecord>>): (r: Response)
    requires !out.Ok?
  {
    if out.OtherErr? then UnhandledError()
    else if out.msg == NoRecordsMessage then ErrorResponse(NoRecordsMessage, "VALIDATION_ERROR", 400)
    else ErrorResponse("Failed to bulk add records", "INTERNAL_ERROR", 500)
  }

  /** `bulk_add_records` as written: `success_response(f'{n} records added successfully',
      status_code=201)` binds the message to `data`, so the envelope has no `message` and its
      `data` is the text. */
  function BulkAsWritten(body: J.Value, records: map<int, InstitutionRecord>, institutionId: int, firstId: int, now: nat)
    : (r: (Response, map<int, InstitutionRecord>))
    ensures var out := BulkOutcome(body, records, institutionId, firstId, now);
            && (!out.Ok? ==> r == (BulkError(out), records))
            && (out.Ok? ==>
                  && r.1 == Inserted(records, out.value, firstId) && r.0.status == 201
                  && r.0.body.Obj? && "message" !in r.0.body.fields
                  && "data" in r.0.body.fields && r.0.body.fields["data"] == J.Str(AddedCountMessage(|out.value|)))
  {
    var out := BulkOutcome(body, records, institutionId, firstId, now);
    if !out.Ok? then (BulkError(out), records)
    else
      var stored := Inserted(records, out.value, firstId);
      var call := CallSuccessResponse([J.Str(AddedCountMessage(|out.value|))], map["status_code" := J.Int(201)]);
      MessageFirstLandsInData(AddedCountMessage(|out.value|));
      (if call.Ok? then call.value else ErrorResponse("Failed to bulk add records", "INTERNAL_ERROR", 500), stored)
  }

  /** The discrepancy: a successful bulk add carries its message as `data` and has no
      `message`, so a client reading the message finds none. */
  lemma BulkAsWrittenMessageInData(name: string, idNumber: string, records: map<int, InstitutionRecord>, institutionId: int, firstId: int, now: nat)
    ensures var body := J.Obj(map["records" := J.Arr([J.Obj(map["name" := J.Str(name), "id_number" := J.Str(idNumber)])])]);
            var r := BulkAsWritten(body, records, institutionId, firstId, now).0;
            && r.status == 201 && "message" !in r.body.fields
            && r.body.fields["data"] == J.Str(AddedCountMessage(1))
  {
    var item := J.Obj(map["name" := J.Str(name), "id_number" := J.Str(idNumber)]);
    assert "name" in item.fields && "id_number" in item.fields;
    assert ItemRecord(item, institutionId, firstId, now).Some?;
    BulkOfOneItem(item, records, institutionId, firstId, now);
  }

  /** The code as written and as intended store the same records and answer with the same
      status; they differ only in where a success puts its message. */
  lemma BulkAsWrittenDiffersOnlyInMessage(body: J.Value, records: map<int, InstitutionRecord>, institutionId: int, firstId: int, now: nat)
    ensures var written := BulkAsWritten(body, records, institutionId, firstId, now);
            var intended := BulkView(body, records, institutionId, firstId, now);
            && written.1 == intended.1 && written.0.status == intended.0.status
            && (written.0.status != 201 ==> written.0 == intended.0)
            && (written.0.status == 201 ==>
                  && "message" !in written.0.body.fields && SuccessMessage(intended.0).Some?
                  && "data" in written.0.body.fields && written.0.body.fields["data"] == J.Str(SuccessMessage(intended.0).value))
  {
    var out := BulkOutcome(body, records, institutionId, firstId, now);
    if out.Ok? {
      var intended := BulkView(body, records, institutionId, firstId, now);
      assert intended.0 == SuccessResponse(J.Null, Some(AddedCountMessage(|out.value|)), 201);
    }
  }

  /** `bulk_add_records` as intended: 201 with the count as the message. */
  function BulkView(body: J.Value, records: map<int, InstitutionRecord>, institutionId: int, firstId: int, now: nat)
    : (r: (Response, map<int, InstitutionRecord>))
    ensures r.0.status in {201, 400, 500}
    ensures r.0.status != 201 ==> r.1 == records
    ensures r.0.status == 400 ==> r.0 == ErrorResponse(NoRecordsMessage, "VALIDATION_ERROR", 400)
    ensures body.Obj? && !J.IsTruthy(Get(body.fields, "records", J.Arr([]))) ==> r.0.status == 400
    ensures r.0.status == 201 ==>
              && body.Obj? && Get(body.fields, "records", J.Arr([])).Arr?
              && var items := Get(body.fields, "records", J.Arr([])).items;
                 && BuildRecords(items, institutionId, firstId, now).Some?
                 && r.1 == Inserted(records, BuildRecords(items, institutionId, firstId, now).value, firstId)
                 && SuccessMessage(r.0) == Some(AddedCountMessage(|items|))
  {
    var out := BulkOutcome(body, records, institutionId, firstId, now);
    if !out.Ok? then (BulkError(out), records)
    else (SuccessResponse(J.Null, Some(AddedCountMessage(|out.value|)), 201), Inserted(records, out.value, firstId))
  }

  /** Every record a bulk add stores belongs to the caller, one per item, and nothing already
      stored below `firstId` changes. */
  lemma BulkRecordsBelongToCaller(body: J.Value, records: map<int, InstitutionRecord>, institutionId: int, firstId: int, now: nat)
    requires forall id :: id in records ==> id < firstId
    ensures var r := BulkView(body, records, institutionId, firstId, now);
            r.0.status == 201 ==>
              && (forall id :: id in r.1 && id !in records ==> r.1[id].institutionId == institutionId && r.1[id].id == id)
              && (forall id :: id in records ==> id in r.1 && r.1[id] == records[id])
              && |r.1.Keys - records.Keys| == |Get(body.fields, "records", J.Arr([])).items|
  {
    var out := BulkOutcome(body, records, institutionId, firstId, now);
    if out.Ok? {
      var items := Get(body.fields, "records", J.Arr([])).items;
      BuiltRecordsOwned(items, institutionId, firstId, now, out.value);
      InsertedOwned(records, out.value, firstId, institutionId);
    }
  }

  /** Each built record has the caller as its institution and the id allocated to it. */
  lemma BuiltRecordsOwned(items: seq<J.Value>, institutionId: int, firstId: int, now: nat, added: seq<InstitutionRecord>)
    requires BuildRecords(items, institutionId, firstId, now) == Some(added)
    ensures forall i :: 0 <= i < |added| ==> added[i].institutionId == institutionId && added[i].id == firstId + i
  {
  }

  /** Committing records with fresh, consecutive ids adds exactly them and keeps the rest. */
  lemma InsertedOwned(records: map<int, InstitutionRecord>, added: seq<InstitutionRecord>, firstId: int, institutionId: int)
    requires forall id :: id in records ==> id < firstId
    requires forall i :: 0 <= i < |added| ==> added[i].institutionId == institutionId && added[i].id == firstId + i
    ensures var m := Inserted(records, added, firstId);
            && (forall id :: id in m && id !in records ==> m[id].institutionId == institutionId && m[id].id == id)
            && (forall id :: id in records ==> id in m && m[id] == records[id])
            && m.Keys - records.Keys == IdRange(firstId, |added|)
            && |m.Keys - records.Keys| == |added|
  {
    InsertedNewKeys(records, added, firstId);
    InsertedKeepsOld(records, added, firstId);
    InsertedNewOwned(records, added, firstId, institutionId);
  }

  lemma InsertedKeepsOld(records: map<int, InstitutionRecord>, added: seq<InstitutionRecord>, firstId: int)
    requires forall id :: id in records ==> id < firstId
    ensures var m := Inserted(records, added, firstId);
            forall id :: id in records ==> id in m && m[id] == records[id]
  {
    var m := Inserted(records, added, firstId);
    forall id | id in records
      ensures id in m && m[id] == records[id]
    {
      assert id !in IdRange(firstId, |added|);
    }
  }

  lemma InsertedNewOwned(records: map<int, InstitutionRecord>, added: seq<InstitutionRecord>, firstId: int, institutionId: int)
    requires forall i :: 0 <= i < |added| ==> added[i].institutionId == institutionId && added[i].id == firstId + i
    ensures var m := Inserted(records, added, firstId);
            forall id :: id in m && id !in records ==> m[id].institutionId == institutionId && m[id].id == id
  {
    var m := Inserted(records, added, firstId);
    forall id | id in m && id !in records
      ensures m[id].institutionId == institutionId && m[id].id == id
    {
      assert id in IdRange(firstId, |added|);
      assert m[id] == added[id - firstId];
    }
  }

  /** The ids a commit adds are exactly the range it allocates. */
  lemma InsertedNewKeys(records: map<int, InstitutionRecord>, added: seq<InstitutionRecord>, firstId: int)
    requires forall id :: id in records ==> id < firstId
    ensures Inserted(records, added, firstId).Keys - records.Keys == IdRange(firstId, |added|)
  {
    var m := Inserted(records, added, firstId);
    var range := IdRange(firstId, |added|);
    forall id ensures id in m.Keys - records.Keys <==> id in range {
      if id in range {
        assert id !in records;
      }
    }
  }

  /** An item with an empty name is stored all the same: the bulk path has no field check. */
  lemma BulkAcceptsEmptyName(idNumber: string, records: map<int, InstitutionRecord>, institutionId: int, firstId: int, now: nat)
    ensures var body := J.Obj(map["records" := J.Arr([J.Obj(map["name" := J.Str(""), "id_number" := J.Str(idNumber)])])]);
            var r := BulkView(body, records, institutionId, firstId, now);
            r.0.status == 201 && firstId in r.1 && r.1[firstId].name == ""
  {
    var item := J.Obj(map["name" := J.Str(""), "id_number" := J.Str(idNumber)]);
    assert "name" in item.fields && "id_number" in item.fields;
    var rec := ItemRecord(item, institutionId, firstId, now);
    assert rec.Some? && rec.value.name == "";
    BulkOfOneItem(item, records, institutionId, firstId, now);
    assert firstId in IdRange(firstId, 1);
  }

  /** A body listing one item that builds a record stores exactly that record. */
  lemma BulkOfOneItem(item: J.Value, records: map<int, InstitutionRecord>, institutionId: int, firstId: int, now: nat)
    requires ItemRecord(item, institutionId, firstId, now).Some?
    ensures BulkOutcome(J.Obj(map["records" := J.Arr([item])]), records, institutionId, firstId, now)
            == Ok([ItemRecord(item, institutionId, firstId, now).value])
  {
    var rec := ItemRecord(item, institutionId, firstId, now);
    var built := BuildRecords([item], institutionId, firstId, now);
    assert [item][0] == item;
    assert built.Some? && |built.value| == 1 && built.value[0] == rec.value;
    assert built.value == [rec.value];
    var body := J.Obj(map["records" := J.Arr([item])]);
    assert "records" in body.fields && Get(body.fields, "records", J.Arr([])) == J.Arr([item]);
  }

  /** `bulk_add_records` on the database: the loop builds one record per item, then all are
      committed together, or none. */
  method BulkAddRecords(db: Database, institutionId: int, body: J.Value, now: nat) returns (resp: Response)
    requires db.Valid() && institutionId in db.users
    modifies db`records, db`nextRecordId
    ensures db.Valid()
    ensures (resp, db.records) == BulkView(body, old(db.records), institutionId, old(db.nextRecordId), now)
  {
    var firstId := db.nextRecordId;
    if !body.Obj? {
      return UnhandledError();
    }
    var list := Get(body.fields, "records", J.Arr([]));
    if !J.IsTruthy(list) {
      return ErrorResponse(NoRecordsMessage, "VALIDATION_ERROR", 400);
    }
    if !list.Arr? {
      return ErrorResponse("Failed to bulk add records", "INTERNAL_ERROR", 500);
    }
    var built := BuildLoop(list.items, institutionId, firstId, now);
    if built.None? {
      return ErrorResponse("Failed to bulk add records", "INTERNAL_ERROR", 500);
    }
    BuiltRecordsOwned(list.items, institutionId, firstId, now, built.value);
    CommitRecords(db, built.value, institutionId);
    resp := SuccessResponse(J.Null, Some(AddedCountMessage(|built.value|)), 201);
  }

  /** The loop of `bulk_add_records`: one record per item, in order, with consecutive ids;
      `None` as soon as an item builds none. */
  method BuildLoop(items: seq<J.Value>, institutionId: int, firstId: int, now: nat) returns (built: Option<seq<InstitutionRecord>>)
    ensures built == BuildRecords(items, institutionId, firstId, now)
  {
    var added: seq<InstitutionRecord> := [];
    for i := 0 to |items|
      invariant BuildRecords(items[..i], institutionId, firstId, now) == Some(added)
    {
      var rec := ItemRecord(items[i], institutionId, firstId + i, now);
      if rec.None? {
        return None;
      }
      assert items[..i + 1][..i] == items[..i];
      added := added + [rec.value];
    }
    assert items[..|items|] == items;
    return Some(added);
  }

  /** The commit: the new records are stored under the ids allocated to them. */
  method CommitRecords(db: Database, added: seq<InstitutionRecord>, institutionId: int)
    requires db.Valid() && institutionId in db.users
    requires forall i :: 0 <= i < |added| ==> added[i].institutionId == institutionId && added[i].id == db.nextRecordId + i
    modifies db`records, db`nextRecordId
    ensures db.Valid()
    ensures db.records == Inserted(old(db.records), added, old(db.nextRecordId))
    ensures db.nextRecordId == old(db.nextRecordId) + |added|
  {
    InsertedConsistent(db.users, db.documents, db.results, db.records, added, institutionId,
      db.nextUserId, db.nextDocumentId, db.nextResultId, db.nextRecordId);
    db.records := Inserted(db.records, added, db.nextRecordId);
    db.nextRecordId := db.nextRecordId + |added|;
  }

  /** Committing the caller's records under fresh consecutive ids keeps the schema's
      constraints, with the counter moved past them. */
  lemma InsertedConsistent(
    users: map<int, User>, documents: map<int, Document>, results: map<int, ResultRow>,
    records: map<int, InstitutionRecord>, added: seq<InstitutionRecord>, institutionId: int,
    nextUserId: int, nextDocumentId: int, nextResultId: int, firstId: int)
    requires Consistent(users, documents, results, records, nextUserId, nextDocumentId, nextResultId, firstId)
    requires institutionId in users
    requires forall i :: 0 <= i < |added| ==> added[i].institutionId == institutionId && added[i].id == firstId + i
    ensures Consistent(users, documents, results, Inserted(records, added, firstId), nextUserId, nextDocumentId, nextResultId, firstId + |added|)
  {
    InsertedOwned(records, added, firstId, institutionId);
    var m := Inserted(records, added, firstId);
    forall id | id in m
      ensures m[id].id == id && 1 <= id < firstId + |added| && m[id].institutionId in users
    {
      if id !in records {
        assert id in IdRange(firstId, |added|);
      }
    }
  }

  // ---------------------------------------------------------------- listing and stats

  /** The caller's records with ids in [1, bound), in id order: `filter_by(institution_id=…)`
      read in primary-key order. */
  function OwnedRecords(records: map<int, InstitutionRecord>, institutionId: int, bound: int): (r: seq<InstitutionRecord>)
    ensures forall i :: 0 <= i < |r| ==> r[i].id in records && records[r[i].id] == r[i] && r[i].institutionId == institutionId
    ensures forall i :: 0 <= i < |r| ==> 1 <= r[i].id < bound
    ensures forall i, j :: 0 <= i < j < |r| ==> r[i].id < r[j].id
    decreases bound
  {
    if bound <= 1 then []
    else
      var prev := OwnedRecords(records, institutionId, bound - 1);
      var id := bound - 1;
      if id in records && records[id].institutionId == institutionId && records[id].id == id
      then prev + [records[id]] else prev
  }

  /** The ids of the caller's records below `bound`. */
  ghost function OwnedIds(records: map<int, InstitutionRecord>, institutionId: int, bound: int): set<int> {
    set id | id in records && 1 <= id < bound && records[id].institutionId == institutionId && records[id].id == id
  }

  /** The list holds exactly the caller's ids below `bound`. */
  lemma {:induction false} OwnedRecordsHasAll(records: map<int, InstitutionRecord>, institutionId: int, bound: int, id: int)
    ensures id in OwnedIds(records, institutionId, bound) <==> HasRecord(OwnedRecords(records, institutionId, bound), id)
    decreases bound
  {
    if bound > 1 {
      OwnedRecordsHasAll(records, institutionId, bound - 1, id);
      var prev := OwnedRecords(records, institutionId, bound - 1);
      var last := bound - 1;
      if last in records && records[last].institutionId == institutionId && records[last].id == last {
        var r := prev + [records[last]];
        if HasRecord(prev, id) {
          var i :| 0 <= i < |prev| && prev[i].id == id;
          assert r[i].id == id;
        }
        if id == last { assert r[|r| - 1].id == id; }
        if HasRecord(r, id) && id != last {
          var i :| 0 <= i < |r| && r[i].id == id;
          assert i < |prev| && prev[i].id == id;
        }
      }
    }
  }

  /** Some record in the list has this id. */
  predicate HasRecord(rows: seq<InstitutionRecord>, id: int) {
    exists i :: 0 <= i < |rows| && rows[i].id == id
  }

  /** So its length is the number of the caller's records. */
  lemma {:induction false} OwnedRecordsCount(records: map<int, InstitutionRecord>, institutionId: int, bound: int)
    ensures |OwnedRecords(records, institutionId, bound)| == |OwnedIds(records, institutionId, bound)|
    decreases bound
  {
    if bound > 1 {
      OwnedRecordsCount(records, institutionId, bound - 1);
      var last := bound - 1;
      if last in records && records[last].institutionId == institutionId && records[last].id == last {
        assert OwnedIds(records, institutionId, bound) == OwnedIds(records, institutionId, bound - 1) + {last};
      } else {
        assert OwnedIds(records, institutionId, bound) == OwnedIds(records, institutionId, bound - 1);
      }
    }
  }

  /** Under the schema's constraints every record's id is below the counter, so listing up to
      it finds every record of the caller. */
  lemma OwnedRecordsAll(db: Database, institutionId: int)
    requires db.Valid()
    ensures OwnedIds(db.records, institutionId, db.nextRecordId) ==
            set id | id in db.records && db.records[id].institutionId == institutionId
  {
  }

  /** `list_records`: the clamped page (at most 100) of the caller's records. */
  function ListRecordsView(records: map<int, InstitutionRecord>, bound: int, institutionId: int, page: int, perPage: int): (r: Response)
    ensures r.status == 200
    ensures PaginationOf(r) == Some((|OwnedRecords(records, institutionId, bound)|, ClampPage(page), ClampPerPage(perPage, 100)))
    ensures ItemsOf(r, "records") == Some(RecordDicts(PageOf(OwnedRecords(records, institutionId, bound), ClampPage(page), ClampPerPage(perPage, 100))))
  {
    var p := ClampPage(page);
    var n := ClampPerPage(perPage, 100);
    PaginatedResponse(RecordDicts(PageOf(OwnedRecords(records, institutionId, bound), p, n)), |OwnedRecords(records, institutionId, bound)|, p, n, "records")
  }

  function RecordDicts(rows: seq<InstitutionRecord>): (ds: seq<J.Value>)
    ensures |ds| == |rows|
    ensures forall i :: 0 <= i < |rows| ==> ds[i] == RecordToDict(rows[i])
  {
    seq(|rows|, i requires 0 <= i < |rows| => RecordToDict(rows[i]))
  }

  /** Each dict of the list reads back as its record. */
  lemma RecordDictsRoundTrip(rows: seq<InstitutionRecord>)
    ensures forall i :: 0 <= i < |rows| ==> RecordFromDict(RecordDicts(rows)[i]) == Some(rows[i])
  {
    forall i | 0 <= i < |rows| ensures RecordFromDict(RecordDicts(rows)[i]) == Some(rows[i]) {
      RecordDictRoundTrip(rows[i]);
    }
  }

  /** Every row of a page is a row of the whole list. */
  lemma PageRowsFromList<T>(rows: seq<T>, page: int, perPage: int)
    requires page >= 1 && perPage >= 1
    ensures forall i :: 0 <= i < |PageOf(rows, page, perPage)| ==> PageOf(rows, page, perPage)[i] in rows
  {
    var r := PageOf(rows, page, perPage);
    var start := (page - 1) * perPage;
    forall i | 0 <= i < |r| ensures r[i] in rows {
      assert r[i] == rows[start + i];
    }
  }

  /** Every listed dict reads back as one of the caller's stored records, and there are at most
      `per_page` of them. */
  lemma ListedRecordsAreOwn(records: map<int, InstitutionRecord>, bound: int, institutionId: int, page: int, perPage: int)
    ensures var shown := ListRecordsView(records, bound, institutionId, page, perPage).body.fields["data"].fields["records"];
            && shown.Arr? && |shown.items| <= ClampPerPage(perPage, 100)
            && forall i :: 0 <= i < |shown.items| ==>
                 var rec := RecordFromDict(shown.items[i]);
                 rec.Some? && rec.value.institutionId == institutionId && rec.value.id in records && records[rec.value.id] == rec.value
  {
    var owned := OwnedRecords(records, institutionId, bound);
    var rows := PageOf(owned, ClampPage(page), ClampPerPage(perPage, 100));
    var ds := RecordDicts(rows);
    assert ListRecordsView(records, bound, institutionId, page, perPage).body.fields["data"].fields["records"] == J.Arr(ds);
    RecordDictsRoundTrip(rows);
    PageRowsFromList(owned, ClampPage(page), ClampPerPage(perPage, 100));
    forall i | 0 <= i < |ds|
      ensures rows[i].institutionId == institutionId && rows[i].id in records && records[rows[i].id] == rows[i]
    {
      assert rows[i] in owned;
    }
  }

  const StatsMessage := "Institution stats retrieved successfully"

  /** `get_institution_stats`: the number of the caller's records and the caller's name. */
  function StatsView(records: map<int, InstitutionRecord>, bound: int, institution: User): (r: Response)
    ensures r.status == 200 && IsSuccess(r) && SuccessMessage(r) == Some(StatsMessage) && "data" in r.body.fields
    ensures r.body.fields["data"] == J.Obj(map[
              "total_records" := J.Int(|OwnedIds(records, institution.id, bound)|),
              "institution_name" := J.Str(institution.name)])
  {
    OwnedRecordsCount(records, institution.id, bound);
    SuccessResponse(
      J.Obj(map["total_records" := J.Int(|OwnedRecords(records, institution.id, bound)|), "institution_name" := J.Str(institution.name)]),
      Some(StatsMessage))
  }

  /** On a consistent database the count is of all the caller's records, and of no one
      else's. */
  lemma StatsCountsOwnRecords(db: Database, institution: User)
    requires db.Valid()
    ensures StatsView(db.records, db.nextRecordId, institution).body.fields["data"].fields["total_records"] ==
            J.Int(|set id | id in db.records && db.records[id].institutionId == institution.id|)
  {
    OwnedRecordsAll(db, institution.id);
  }
}

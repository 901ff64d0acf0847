/** The institution's records page: the list with its search box, the add-record form and
    the bulk JSON box. Awaited replies, and the outcome of parsing the bulk text, are
    parameters. */
module InstitutionRecordsPage {

  import opened Wrappers
  import opened Strings
  import opened Lists
  import opened Models
  import UseApi
  import J = Json

  const LoadFailedMessage := "Failed to load records"
  const AddFailedMessage := "Failed to add record"
  const BulkFailedMessage := "Invalid JSON format or upload failed"

  /** What the list request gives back: the institution's records, or a rejection. */
  datatype RecordsReply = RecordsListed(records: seq<InstitutionRecord>) | RecordsFailed(failure: UseApi.Failure)

  /** The add-record form. */
  datatype RecordForm = RecordForm(name: string, idNumber: string, metadata: J.Value)

  const EmptyForm := RecordForm("", "", J.Obj(map[]))

  /** The body the form posts. */
  function FormBody(f: RecordForm): J.Value {
    J.Obj(map["name" := J.Str(f.name), "id_number" := J.Str(f.idNumber), "metadata" := f.metadata])
  }

  /** The search test: the lower-cased name or id number contains the lower-cased search.
      A record is found by its own name or id number typed in any letter case, and never by
      a search longer than both. */
  function Matches(r: InstitutionRecord, search: string): (ok: bool)
    ensures Lower(search) == Lower(r.name) || Lower(search) == Lower(r.idNumber) ==> ok
    ensures ok ==> |search| <= |r.name| || |search| <= |r.idNumber|
  {
    assert Lower(search) == Lower(r.name) ==> OccursAt(Lower(r.name), Lower(search), 0);
    assert Lower(search) == Lower(r.idNumber) ==> OccursAt(Lower(r.idNumber), Lower(search), 0);
    Contains(Lower(r.name), Lower(search)) || Contains(Lower(r.idNumber), Lower(search))
  }

  /** `filteredRecords`. */
  function FilteredRecords(records: seq<InstitutionRecord>, search: string): (r: seq<InstitutionRecord>)
    ensures forall x :: x in r <==> x in records && Matches(x, search)
  {
    Filter(records, x => Matches(x, search))
  }

  /** An empty search shows every record, in order. */
  lemma EmptySearchKeepsAll(records: seq<InstitutionRecord>)
    ensures FilteredRecords(records, "") == records
  {
    forall x | x in records
      ensures Matches(x, "")
    {
      assert OccursAt(Lower(x.name), Lower(""), 0);
    }
    FilterKeepsAll(records, x => Matches(x, ""));
  }

  /** The search ignores letter case on both sides. */
  lemma SearchIgnoresCase(records: seq<InstitutionRecord>, search: string)
    ensures FilteredRecords(records, Lower(search)) == FilteredRecords(records, search)
  {
    LowerIdempotent(search);
    FilterAgrees(records, x => Matches(x, Lower(search)), x => Matches(x, search));
  }

  /** Searching a list split in two gives the two results in the same order. */
  lemma FilteredRecordsKeepOrder(a: seq<InstitutionRecord>, b: seq<InstitutionRecord>, search: string)
    ensures FilteredRecords(a + b, search) == FilteredRecords(a, search) + FilteredRecords(b, search)
  {
    FilterAppend(a, b, x => Matches(x, search));
  }

  /** `disabled={!bulkJson}`. */
  predicate BulkDisabled(bulkJson: string) {
    bulkJson == ""
  }

  class RecordsPage {
    var records: seq<InstitutionRecord>
    var loading: bool
    var error: string
    var search: string
    var showAddModal: bool
    var form: RecordForm
    var bulkJson: string
    /** How many list requests the page has sent. */
    var fetches: nat

    constructor ()
      ensures records == [] && loading && error == "" && search == "" && !showAddModal
      ensures form == EmptyForm && bulkJson == "" && fetches == 0
    {
      records := [];
      loading := true;
      error := "";
      search := "";
      showAddModal := false;
      form := EmptyForm;
      bulkJson := "";
      fetches := 0;
    }

    /** `fetchRecords`, from its request to its settling: the records are replaced on
        success; a failure keeps them and shows the envelope's message or the fallback.
        Loading ends either way. */
    method FetchRecords(reply: RecordsReply) returns (sent: UseApi.Request)
      modifies this`records, this`error, this`loading, this`fetches
      ensures sent == UseApi.Request("GET", "/institution/records", J.Null)
      ensures !loading && fetches == old(fetches) + 1
      ensures reply.RecordsListed? ==> records == reply.records && error == old(error)
      ensures reply.RecordsFailed? ==>
                records == old(records) && error == UseApi.EnvelopeOr(reply.failure, LoadFailedMessage)
    {
      sent := UseApi.Request("GET", "/institution/records", J.Null);
      fetches := fetches + 1;
      loading := false;
      match reply
      case RecordsListed(rs) =>
        records := rs;
      case RecordsFailed(f) =>
        error := UseApi.EnvelopeOr(f, LoadFailedMessage);
    }

    /** `handleAddRecord`: on success the list is fetched again, the modal closes and the
        form is emptied; on failure the modal and the form stay and the error is shown. */
    method AddRecord(reply: UseApi.Reply) returns (sent: UseApi.Request)
      modifies this`showAddModal, this`form, this`error, this`fetches
      ensures sent == UseApi.Request("POST", "/institution/records", FormBody(old(form)))
      ensures reply.Answered? ==>
                !showAddModal && form == EmptyForm && fetches == old(fetches) + 1 && error == old(error)
      ensures reply.Failed? ==>
                && showAddModal == old(showAddModal) && form == old(form) && fetches == old(fetches)
                && error == UseApi.EnvelopeOr(reply.failure, AddFailedMessage)
    {
      sent := UseApi.Request("POST", "/institution/records", FormBody(form));
      match reply
      case Answered(_) =>
        fetches := fetches + 1;
        showAddModal := false;
        form := EmptyForm;
      case Failed(f) =>
        error := UseApi.EnvelopeOr(f, AddFailedMessage);
    }

    /** `handleBulkUpload`: text that does not parse sends nothing; a parse failure and a
        rejected post read the same; the text is cleared only on success. */
    method BulkUpload(parsed: Option<J.Value>, reply: UseApi.Reply) returns (sent: Option<UseApi.Request>)
      modifies this`bulkJson, this`error, this`fetches
      ensures sent.Some? <==> parsed.Some?
      ensures parsed.Some? ==> sent == Some(UseApi.Request("POST", "/institution/records/bulk", parsed.value))
      ensures parsed.Some? && reply.Answered? ==>
                bulkJson == "" && fetches == old(fetches) + 1 && error == old(error)
      ensures parsed.None? || reply.Failed? ==>
                bulkJson == old(bulkJson) && fetches == old(fetches) && error == BulkFailedMessage
    {
      if parsed.None? {
        sent := None;
        error := BulkFailedMessage;
      } else {
        sent := Some(UseApi.Request("POST", "/institution/records/bulk", parsed.value));
        if reply.Answered? {
          fetches := fetches + 1;
          bulkJson := "";
        } else {
          error := BulkFailedMessage;
        }
      }
    }
  }
}

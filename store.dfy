/** The relational database behind the backend: the four tables as maps from primary key to
    row, with the uniqueness and foreign-key constraints the models declare. */
module Store {

  import opened Wrappers
  import opened Models

  /** True when some user already has this email (`User.query.filter_by(email=…).first()`). */
  predicate EmailTaken(users: map<int, User>, email: string) {
    exists id :: id in users && users[id].email == email
  }

  /** True when some document already has this stored name. */
  predicate StoredNameTaken(documents: map<int, Document>, storedName: string) {
    exists id :: id in documents && documents[id].storedName == storedName
  }

  /** The constraints of the schema: primary keys match the map keys and are allocated
      upwards from 1, `users.email` and `documents.stored_name` are unique, a result belongs to an existing
      document (`results.document_id` is unique, so results are keyed by it), and every
      institution record belongs to an existing user. */
  ghost predicate Consistent(
    users: map<int, User>, documents: map<int, Document>, results: map<int, ResultRow>,
    records: map<int, InstitutionRecord>,
    nextUserId: int, nextDocumentId: int, nextResultId: int, nextRecordId: int)
  {
    && 1 <= nextUserId && 1 <= nextDocumentId && 1 <= nextResultId && 1 <= nextRecordId
    && (forall id :: id in users ==> users[id].id == id && 1 <= id < nextUserId)
    && (forall a, b :: a in users && b in users && users[a].email == users[b].email ==> a == b)
    && (forall id :: id in documents ==> documents[id].id == id && 1 <= id < nextDocumentId)
    && (forall a, b :: a in documents && b in documents && documents[a].storedName == documents[b].storedName ==> a == b)
    && (forall d :: d in results ==> d in documents && results[d].documentId == d && results[d].id < nextResultId)
    && (forall id :: id in records ==> records[id].id == id && 1 <= id < nextRecordId && records[id].institutionId in users)
  }

  class Database {
    var users: map<int, User>
    var documents: map<int, Document>
    /** Results keyed by their `document_id`. */
    var results: map<int, ResultRow>
    var records: map<int, InstitutionRecord>
    var nextUserId: int
    var nextDocumentId: int
    var nextResultId: int
    var nextRecordId: int

    ghost predicate Valid()
      reads this
    {
      Consistent(users, documents, results, records, nextUserId, nextDocumentId, nextResultId, nextRecordId)
    }

    /** An empty database. */
    constructor ()
      ensures Valid()
      ensures users == map[] && documents == map[] && results == map[] && records == map[]
    {
      users := map[];
      documents := map[];
      results := map[];
      records := map[];
      nextUserId := 1;
      nextDocumentId := 1;
      nextResultId := 1;
      nextRecordId := 1;
    }
  }

  /** `paginate(page, per_page, error_out=False).items`: the `page`-th slice of `per_page`
      rows, empty past the end. */
  function PageOf<T>(rows: seq<T>, page: int, perPage: int): (r: seq<T>)
    requires page >= 1 && perPage >= 1
    ensures |r| <= perPage
    ensures (page - 1) * perPage >= |rows| ==> r == []
    ensures (page - 1) * perPage < |rows| ==>
              && (page - 1) * perPage + |r| <= |rows|
              && (|r| == perPage || (page - 1) * perPage + |r| == |rows|)
              && forall i :: 0 <= i < |r| ==> r[i] == rows[(page - 1) * perPage + i]
  {
    var start := (page - 1) * perPage;
    if start >= |rows| then []
    else rows[start..if start + perPage <= |rows| then start + perPage else |rows|]
  }

  /** The rows `paginate(error_out=False)` returns for any arguments: a page below 1 is read
      as page 1, and a per_page below 1 as the default of 20. */
  function OrmPage<T>(rows: seq<T>, page: int, perPage: int): (r: seq<T>)
    ensures page >= 1 && perPage >= 1 ==> r == PageOf(rows, page, perPage)
    ensures |r| <= if perPage >= 1 then perPage else 20
  {
    PageOf(rows, if page >= 1 then page else 1, if perPage >= 1 then perPage else 20)
  }
}

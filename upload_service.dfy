/** Document storage: the guards of an upload, the ownership check, deletion with its
    cascade, and the owner's document list. Writing and removing the file on disk, the
    file-system-safe name and the random UUID are outside the model; the safe name and the
    UUID are parameters. */
module UploadService {

  import opened Wrappers
  import opened Strings
  import opened Models
  import opened Store
  import opened FileUtils
  import opened Ordering
  import J = Json

  const NoFileMessage := "No file provided"
  const TypeNotAllowedMessage := "File type not allowed. Allowed types: pdf, jpg, jpeg, png"
  const ContentMismatchMessage := "File content does not match its extension"

  // ---------------------------------------------------------------- save_document

  /** The guards of `save_document`, in their order, on the file name (`None` when no file
      was sent) and the stream's unread content. On success, the extension. */
  function UploadCheck(filename: Option<string>, content: seq<Byte>): (r: Outcome<string>)
    ensures !Truthy(filename) ==> r == ValueErr(NoFileMessage)
    ensures Truthy(filename) && !AllowedFile(filename.value) ==> r == ValueErr(TypeNotAllowedMessage)
    ensures Truthy(filename) && AllowedFile(filename.value) && !ContentMatches(content, GetFileExtension(filename.value)) ==>
              r == ValueErr(ContentMismatchMessage)
    ensures r.Ok? <==> Truthy(filename) && AllowedFile(filename.value) && ContentMatches(content, GetFileExtension(filename.value))
    ensures r.Ok? ==> r.value == GetFileExtension(filename.value) && r.value in AllowedExtensions
  {
    if !Truthy(filename) then ValueErr(NoFileMessage)
    else if !AllowedFile(filename.value) then ValueErr(TypeNotAllowedMessage)
    else
      var ext := Lower(AfterLastDot(filename.value));
      if ext != "" && !ContentMatches(content, ext) then ValueErr(ContentMismatchMessage)
      else Ok(ext)
  }

  /** `save_document` on the documents table. `data` is the whole uploaded file and `pos` the
      stream's position when the service receives it; the new row takes id `newId`. A stored
      name that is already taken violates the unique constraint on commit. */
  function SaveSpec(
    documents: map<int, Document>, filename: Option<string>, data: seq<Byte>, pos: nat, userId: int,
    hex: string, secure: string -> string, newId: int, now: nat): (r: (Outcome<Document>, map<int, Document>))
    requires pos <= |data| && IsUuidHex(hex)
    ensures !r.0.Ok? ==> r.1 == documents
    ensures UploadCheck(filename, data[pos..]).ValueErr? ==> r.0 == ValueErr(UploadCheck(filename, data[pos..]).msg)
    ensures UploadCheck(filename, data[pos..]).Ok? ==>
              (r.0.Ok? <==> !StoredNameTaken(documents, GenerateStoredName(filename.value, hex)))
    ensures r.0.Ok? ==>
              var d := r.0.value;
              && UploadCheck(filename, data[pos..]).Ok?
              && r.1 == documents[newId := d]
              && d.id == newId && d.userId == userId && d.uploadedAt == Some(now)
              && d.fileType == GetFileExtension(filename.value) && d.fileType in AllowedExtensions
              && d.filename == secure(filename.value)
              && d.storedName == GenerateStoredName(filename.value, hex)
              && GetFileExtension(d.storedName) == d.fileType
              && d.fileSize == |data|
              && !StoredNameTaken(documents, d.storedName)
  {
    match UploadCheck(filename, data[pos..])
    case ValueErr(msg) => (ValueErr(msg), documents)
    case OtherErr => (OtherErr, documents)
    case Ok(ext) =>
      var stored := GenerateStoredName(filename.value, hex);
      if StoredNameTaken(documents, stored) then (OtherErr, documents)
      else
        var d := Document(newId, secure(filename.value), stored, ext, |data|, userId, Some(now));
        (Ok(d), documents[newId := d])
  }

  /** An upload keeps stored names unique. */
  lemma SaveKeepsStoredNamesUnique(
    documents: map<int, Document>, filename: Option<string>, data: seq<Byte>, pos: nat, userId: int,
    hex: string, secure: string -> string, newId: int, now: nat)
    requires pos <= |data| && IsUuidHex(hex) && newId !in documents
    requires forall a, b :: a in documents && b in documents && documents[a].storedName == documents[b].storedName ==> a == b
    ensures var r := SaveSpec(documents, filename, data, pos, userId, hex, secure, newId, now).1;
            forall a, b :: a in r && b in r && r[a].storedName == r[b].storedName ==> a == b
  {
    var r := SaveSpec(documents, filename, data, pos, userId, hex, secure, newId, now);
    if r.0.Ok? {
      var d := r.0.value;
      assert forall b :: b in documents ==> documents[b].storedName != d.storedName;
    }
  }

  /** The guards of `save_document` on a stream: the content check reads the stream's
      header and rewinds it. */
  method CheckUpload(filename: Option<string>, file: Stream) returns (check: Outcome<string>)
    requires file.Valid()
    modifies file`pos
    ensures file.Valid()
    ensures check == UploadCheck(filename, old(file.data[file.pos..]))
    ensures check == ValueErr(NoFileMessage) || check == ValueErr(TypeNotAllowedMessage) ==> file.pos == old(file.pos)
    ensures check.Ok? || check == ValueErr(ContentMismatchMessage) ==> file.pos == 0
  {
    ghost var content := file.data[file.pos..];
    if !Truthy(filename) {
      return ValueErr(NoFileMessage);
    }
    if !AllowedFile(filename.value) {
      return ValueErr(TypeNotAllowedMessage);
    }
    var ext := Lower(AfterLastDot(filename.value));
    // The source skips the content check for an empty extension, which the allow-list
    // has already ruled out.
    assert ext == GetFileExtension(filename.value) && ext in AllowedExtensions && ext != "";
    SignaturesExactlyForAllowed(ext);
    LowerIdempotent(AfterLastDot(filename.value));
    var ok, _ := ValidateFileContent(file, ext);
    if !ok {
      return ValueErr(ContentMismatchMessage);
    }
    check := Ok(ext);
  }

  /** A successful upload, with the next document id, keeps the schema's constraints. */
  lemma SaveConsistent(
    users: map<int, User>, documents: map<int, Document>, results: map<int, ResultRow>,
    records: map<int, InstitutionRecord>, filename: Option<string>, data: seq<Byte>, pos: nat, userId: int,
    hex: string, secure: string -> string, nu: int, nd: int, nr: int, nrec: int, now: nat)
    requires Consistent(users, documents, results, records, nu, nd, nr, nrec)
    requires pos <= |data| && IsUuidHex(hex)
    requires SaveSpec(documents, filename, data, pos, userId, hex, secure, nd, now).0.Ok?
    ensures Consistent(users, SaveSpec(documents, filename, data, pos, userId, hex, secure, nd, now).1, results, records, nu, nd + 1, nr, nrec)
  {
    var m := SaveSpec(documents, filename, data, pos, userId, hex, secure, nd, now).1;
    var d := SaveSpec(documents, filename, data, pos, userId, hex, secure, nd, now).0.value;
    assert nd !in documents;
    assert m == documents[nd := d] && d.id == nd;
    SaveKeepsStoredNamesUnique(documents, filename, data, pos, userId, hex, secure, nd, now);
    forall id | id in m
      ensures m[id].id == id && 1 <= id < nd + 1
    {
      if id != nd {
        assert m[id] == documents[id];
      }
    }
    forall k | k in results
      ensures k in m
    {
      assert k in documents;
    }
  }

  /** How the outcome of the guards decides the outcome of the save. */
  lemma SaveFollowsCheck(
    documents: map<int, Document>, filename: Option<string>, data: seq<Byte>, pos: nat, userId: int,
    hex: string, secure: string -> string, newId: int, now: nat, check: Outcome<string>)
    requires pos <= |data| && IsUuidHex(hex) && check == UploadCheck(filename, data[pos..])
    ensures var r := SaveSpec(documents, filename, data, pos, userId, hex, secure, newId, now);
            && (!check.Ok? ==> check.ValueErr? && r == (ValueErr(check.msg), documents))
            && (check.Ok? && !r.0.Ok? ==> r == (OtherErr, documents))
  {
  }

  /** The store operation. */
  method SaveDocument(
    db: Database, filename: Option<string>, file: Stream, userId: int,
    hex: string, secure: string -> string, now: nat) returns (out: Outcome<J.Value>)
    requires db.Valid() && file.Valid() && IsUuidHex(hex)
    modifies db, file`pos
    ensures db.Valid() && file.Valid()
    ensures var r := SaveSpec(old(db.documents), filename, file.data, old(file.pos), userId, hex, secure, old(db.nextDocumentId), now);
            && db.documents == r.1
            && (r.0.Ok? ==> out == Ok(DocumentToDict(r.0.value, false)))
            && (r.0.ValueErr? ==> out == ValueErr(r.0.msg))
            && (r.0.OtherErr? ==> out == OtherErr)
    ensures db.nextDocumentId == old(db.nextDocumentId) + (if out.Ok? then 1 else 0)
    ensures db.users == old(db.users) && db.results == old(db.results) && db.records == old(db.records)
    ensures db.nextUserId == old(db.nextUserId) && db.nextResultId == old(db.nextResultId) && db.nextRecordId == old(db.nextRecordId)
  {
    var r := SaveSpec(db.documents, filename, file.data, file.pos, userId, hex, secure, db.nextDocumentId, now);
    var check := CheckUpload(filename, file);
    SaveFollowsCheck(db.documents, filename, file.data, old(file.pos), userId, hex, secure, db.nextDocumentId, now, check);
    if !check.Ok? {
      return ValueErr(check.msg);
    }
    if !r.0.Ok? {
      return OtherErr;
    }
    SaveConsistent(db.users, db.documents, db.results, db.records, filename, file.data, old(file.pos), userId, hex, secure,
                   db.nextUserId, db.nextDocumentId, db.nextResultId, db.nextRecordId, now);
    AddDocument(db, r.1);
    out := Ok(DocumentToDict(r.0.value, false));
  }

  /** The commit of an upload: the new documents table and the next document id. */
  method AddDocument(db: Database, documents: map<int, Document>)
    requires db.Valid()
    requires Consistent(db.users, documents, db.results, db.records, db.nextUserId, db.nextDocumentId + 1, db.nextResultId, db.nextRecordId)
    modifies db
    ensures db.Valid()
    ensures db.documents == documents && db.nextDocumentId == old(db.nextDocumentId) + 1
    ensures db.users == old(db.users) && db.results == old(db.results) && db.records == old(db.records)
    ensures db.nextUserId == old(db.nextUserId) && db.nextResultId == old(db.nextResultId) && db.nextRecordId == old(db.nextRecordId)
  {
    db.documents := documents;
    db.nextDocumentId := db.nextDocumentId + 1;
  }

  // ---------------------------------------------------------------- get_document

  /** `get_document`: NOT_FOUND before FORBIDDEN; only the owner gets the row. */
  function GetDocument(documents: map<int, Document>, docId: int, userId: int): (r: Outcome<Document>)
    ensures docId !in documents ==> r == ValueErr("NOT_FOUND")
    ensures docId in documents && documents[docId].userId != userId ==> r == ValueErr("FORBIDDEN")
    ensures r.Ok? <==> docId in documents && documents[docId].userId == userId
    ensures r.Ok? ==> r.value == documents[docId]
  {
    if docId !in documents then ValueErr("NOT_FOUND")
    else if documents[docId].userId != userId then ValueErr("FORBIDDEN")
    else Ok(documents[docId])
  }

  /** Two different users never both get the same document. */
  lemma GetDocumentSingleOwner(documents: map<int, Document>, docId: int, u1: int, u2: int)
    requires GetDocument(documents, docId, u1).Ok? && GetDocument(documents, docId, u2).Ok?
    ensures u1 == u2
  {
  }

  // ---------------------------------------------------------------- delete_document

  /** `delete_document` on the documents and results tables: the owner's document is removed
      whether or not its file is still on disk, and its result goes with it. */
  function DeleteSpec(documents: map<int, Document>, results: map<int, ResultRow>, docId: int, userId: int)
    : (r: (Outcome<bool>, map<int, Document>, map<int, ResultRow>))
    ensures GetDocument(documents, docId, userId).ValueErr? ==>
              r == (ValueErr(GetDocument(documents, docId, userId).msg), documents, results)
    ensures r.0.Ok? <==> GetDocument(documents, docId, userId).Ok?
    ensures r.0.Ok? ==> r.0.value && docId !in r.1 && docId !in r.2
    ensures forall other :: other != docId ==>
              (other in r.1 <==> other in documents) && (other in r.1 ==> r.1[other] == documents[other])
              && (other in r.2 <==> other in results) && (other in r.2 ==> r.2[other] == results[other])
  {
    match GetDocument(documents, docId, userId)
    case Ok(_) => (Ok(true), documents - {docId}, results - {docId})
    case ValueErr(msg) => (ValueErr(msg), documents, results)
    case OtherErr => (OtherErr, documents, results)
  }

  /** Deletion keeps the schema's constraints: no result is left without its document. */
  lemma DeleteKeepsConsistent(
    users: map<int, User>, documents: map<int, Document>, results: map<int, ResultRow>,
    records: map<int, InstitutionRecord>, nu: int, nd: int, nr: int, nrec: int, docId: int, userId: int)
    requires Consistent(users, documents, results, records, nu, nd, nr, nrec)
    ensures var r := DeleteSpec(documents, results, docId, userId);
            Consistent(users, r.1, r.2, records, nu, nd, nr, nrec)
  {
  }

  method DeleteDocument(db: Database, docId: int, userId: int) returns (out: Outcome<bool>)
    requires db.Valid()
    modifies db
    ensures db.Valid()
    ensures var r := DeleteSpec(old(db.documents), old(db.results), docId, userId);
            out == r.0 && db.documents == r.1 && db.results == r.2
    ensures db.users == old(db.users) && db.records == old(db.records)
    ensures db.nextUserId == old(db.nextUserId) && db.nextDocumentId == old(db.nextDocumentId)
    ensures db.nextResultId == old(db.nextResultId) && db.nextRecordId == old(db.nextRecordId)
  {
    var found := GetDocument(db.documents, docId, userId);
    if !found.Ok? {
      return if found.ValueErr? then ValueErr(found.msg) else OtherErr;
    }
    db.documents := db.documents - {docId};
    db.results := db.results - {docId};
    out := Ok(true);
  }

  // ---------------------------------------------------------------- get_user_documents

  function DocumentKey(d: Document): int {
    TimeKey(d.uploadedAt)
  }

  function DocumentId(d: Document): int {
    d.id
  }

  predicate OwnedBy(documents: map<int, Document>, userId: int, d: int) {
    d in documents && documents[d].userId == userId
  }

  predicate IsOwnedRow(documents: map<int, Document>, userId: int, d: Document) {
    d.id in documents && documents[d.id] == d && d.userId == userId
  }

  /** The serialised page, each row with its `has_result`. */
  function DocumentDicts(rows: seq<Document>, results: map<int, ResultRow>): (r: seq<J.Value>)
    ensures |r| == |rows|
    ensures forall i :: 0 <= i < |rows| ==> r[i] == DocumentToDict(rows[i], rows[i].id in results)
  {
    seq(|rows|, i requires 0 <= i < |rows| => DocumentToDict(rows[i], rows[i].id in results))
  }

  /** `get_user_documents`: the user's documents, newest upload first, cut to the requested
      page, and how many there are in all. */
  method GetUserDocuments(db: Database, userId: int, page: int := 1, perPage: int := 10)
    returns (items: seq<J.Value>, ghost rows: seq<Document>, total: nat)
    requires db.Valid() && page >= 1 && perPage >= 1
    ensures total == |rows|
    ensures SortedDesc(rows, DocumentKey)
    ensures forall i :: 0 <= i < |rows| ==> IsOwnedRow(db.documents, userId, rows[i])
    ensures forall d :: HasId(rows, DocumentId, d) <==> OwnedBy(db.documents, userId, d)
    ensures DistinctIds(rows, DocumentId)
    ensures items == DocumentDicts(PageOf(rows, page, perPage), db.results)
  {
    var documents := db.documents;
    var all: seq<Document> := [];
    for d := 1 to db.nextDocumentId
      invariant SortedDesc(all, DocumentKey)
      invariant forall i :: 0 <= i < |all| ==> IsOwnedRow(documents, userId, all[i])
      invariant forall k :: HasId(all, DocumentId, k) <==> 1 <= k < d && OwnedBy(documents, userId, k)
      invariant DistinctIds(all, DocumentId)
    {
      if OwnedBy(documents, userId, d) {
        var doc := documents[d];
        InsertDescKeeps(all, doc, DocumentKey, DocumentId, x => IsOwnedRow(documents, userId, x));
        all := InsertDesc(all, doc, DocumentKey);
      }
    }
    rows := all;
    total := |all|;
    items := DocumentDicts(PageOf(all, page, perPage), db.results);
  }
}

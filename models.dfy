/** The four database records of the backend and their `to_dict` serialisers
    of the backend models. Each serialiser has a reader that parses the dict back. */
module Models {

  import opened Wrappers
  import J = Json

  /** A timestamp as a sort key for `ORDER BY … DESC`; a null timestamp sorts last. */
  function TimeKey(t: Option<nat>): (k: int)
    ensures k >= -1 && (t.Some? <==> k >= 0)
  {
    if t.Some? then t.value else -1
  }

  /** werkzeug's salted password hash is foreign code; it is modelled as an injective tag of
      the password, which is all `check_password` relies on. */
  datatype PasswordHash = Hashed(secret: string)

  /** A row of `users`. `isPaid` and `validationCount` are read by the validation service
      but are not columns of the model class; they are explicit fields here. */
  datatype User = User(
    id: int,
    email: string,
    passwordHash: PasswordHash,
    name: string,
    role: string,
    createdAt: Option<nat>,
    isPaid: bool,
    validationCount: nat)

  /** What the front end receives of a user: `to_dict` read back. */
  datatype UserInfo = UserInfo(id: int, email: string, name: string, role: string, createdAt: Option<nat>)

  /** A row created by `User(email=…, name=…)`: `role` defaults to 'user'; the
      password is set afterwards. */
  function NewUser(id: int, email: string, name: string, password: string, now: nat, role: string := "user"): (u: User)
    ensures u.id == id && u.email == email && u.name == name && u.role == role
    ensures CheckPassword(u, password)
    ensures !u.isPaid && u.validationCount == 0 && u.createdAt == Some(now)
  {
    SetPassword(User(id, email, Hashed(""), name, role, Some(now), false, 0), password)
  }

  /** `set_password`: replaces the stored hash and nothing else. */
  function SetPassword(u: User, password: string): (r: User)
    ensures CheckPassword(r, password)
    ensures forall other :: other != password ==> !CheckPassword(r, other)
    ensures r.(passwordHash := u.passwordHash) == u
  {
    u.(passwordHash := Hashed(password))
  }

  /** `check_password`: the password checks exactly when the stored hash is its hash. */
  function CheckPassword(u: User, password: string): (ok: bool)
    ensures ok <==> u.passwordHash == Hashed(password)
  {
    u.passwordHash.secret == password
  }

  const UserKeys: set<string> := {"id", "email", "name", "role", "created_at"}

  function UserToDict(u: User): (j: J.Value)
    ensures j.Obj? && j.fields.Keys == UserKeys && "password_hash" !in j.fields
    ensures j.fields["created_at"] == J.Null <==> u.createdAt.None?
  {
    J.Obj(map[
      "id" := J.Int(u.id),
      "email" := J.Str(u.email),
      "name" := J.Str(u.name),
      "role" := J.Str(u.role),
      "created_at" := J.OptTime(u.createdAt)])
  }

  /** Two users that differ only in their password serialise identically. */
  lemma UserToDictHidesPassword(u: User, h: PasswordHash)
    ensures UserToDict(u.(passwordHash := h)) == UserToDict(u)
  {
  }

  function PublicView(u: User): UserInfo {
    UserInfo(u.id, u.email, u.name, u.role, u.createdAt)
  }

  function ReadTime(v: J.Value): Option<Option<nat>> {
    match v
    case Null => Some(None)
    case Time(t) => Some(Some(t))
    case _ => None
  }

  function ReadReal(v: J.Value): Option<Option<real>> {
    match v
    case Null => Some(None)
    case Real(r) => Some(Some(r))
    case _ => None
  }

  function UserFromDict(j: J.Value): Option<UserInfo> {
    if j.Obj? && UserKeys <= j.fields.Keys
       && j.fields["id"].Int? && j.fields["email"].Str? && j.fields["name"].Str?
       && j.fields["role"].Str? && ReadTime(j.fields["created_at"]).Some?
    then Some(UserInfo(j.fields["id"].i, j.fields["email"].s, j.fields["name"].s,
                       j.fields["role"].s, ReadTime(j.fields["created_at"]).value))
    else None
  }

  lemma UserDictRoundTrip(u: User)
    ensures UserFromDict(UserToDict(u)) == Some(PublicView(u))
  {
  }

  /** A row of `documents`. Whether a result is attached is a property of the store. */
  datatype Document = Document(
    id: int,
    filename: string,
    storedName: string,
    fileType: string,
    fileSize: nat,
    userId: int,
    uploadedAt: Option<nat>)

  const DocumentKeys: set<string> :=
    {"id", "filename", "stored_name", "file_type", "file_size", "user_id", "uploaded_at", "has_result"}

  function DocumentToDict(d: Document, hasResult: bool): (j: J.Value)
    ensures j.Obj? && j.fields.Keys == DocumentKeys
    ensures j.fields["has_result"] == J.Bool(hasResult)
    ensures j.fields["uploaded_at"] == J.Null <==> d.uploadedAt.None?
  {
    J.Obj(map[
      "id" := J.Int(d.id),
      "filename" := J.Str(d.filename),
      "stored_name" := J.Str(d.storedName),
      "file_type" := J.Str(d.fileType),
      "file_size" := J.Int(d.fileSize),
      "user_id" := J.Int(d.userId),
      "uploaded_at" := J.OptTime(d.uploadedAt),
      "has_result" := J.Bool(hasResult)])
  }

  function DocumentFromDict(j: J.Value): Option<(Document, bool)> {
    if j.Obj? && DocumentKeys <= j.fields.Keys
       && j.fields["id"].Int? && j.fields["filename"].Str? && j.fields["stored_name"].Str?
       && j.fields["file_type"].Str? && j.fields["file_size"].Int? && j.fields["file_size"].i >= 0
       && j.fields["user_id"].Int? && ReadTime(j.fields["uploaded_at"]).Some?
       && j.fields["has_result"].Bool?
    then Some((Document(j.fields["id"].i, j.fields["filename"].s, j.fields["stored_name"].s,
                        j.fields["file_type"].s, j.fields["file_size"].i, j.fields["user_id"].i,
                        ReadTime(j.fields["uploaded_at"]).value),
               j.fields["has_result"].b))
    else None
  }

  lemma DocumentDictRoundTrip(d: Document, hasResult: bool)
    ensures DocumentFromDict(DocumentToDict(d, hasResult)) == Some((d, hasResult))
  {
  }

  /** A row of `results`. The nullable score columns are options; the JSON columns hold
      `Null` when empty. */
  datatype ResultRow = ResultRow(
    id: int,
    documentId: int,
    cnnScore: Option<real>,
    ocrConfidence: Option<real>,
    dbMatchScore: Option<real>,
    finalScore: real,
    verdict: string,
    extractedData: J.Value,
    fieldMatches: J.Value,
    validatedAt: Option<nat>)

  const ResultKeys: set<string> :=
    {"id", "document_id", "scores", "verdict", "extracted_data", "field_matches", "validated_at"}
  const ScoreKeys: set<string> := {"cnn_score", "ocr_confidence", "db_match_score", "final_score"}

  function ResultToDict(r: ResultRow): (j: J.Value)
    ensures j.Obj? && j.fields.Keys == ResultKeys
    ensures j.fields["scores"].Obj? && j.fields["scores"].fields.Keys == ScoreKeys
    ensures j.fields["scores"].fields["final_score"] == J.Real(r.finalScore)
    ensures j.fields["verdict"] == J.Str(r.verdict)
    ensures j.fields["validated_at"] == J.Null <==> r.validatedAt.None?
  {
    J.Obj(map[
      "id" := J.Int(r.id),
      "document_id" := J.Int(r.documentId),
      "scores" := J.Obj(map[
        "cnn_score" := J.OptReal(r.cnnScore),
        "ocr_confidence" := J.OptReal(r.ocrConfidence),
        "db_match_score" := J.OptReal(r.dbMatchScore),
        "final_score" := J.Real(r.finalScore)]),
      "verdict" := J.Str(r.verdict),
      "extracted_data" := r.extractedData,
      "field_matches" := r.fieldMatches,
      "validated_at" := J.OptTime(r.validatedAt)])
  }

  function ResultFromDict(j: J.Value): Option<ResultRow> {
    if j.Obj? && ResultKeys <= j.fields.Keys
       && j.fields["id"].Int? && j.fields["document_id"].Int?
       && j.fields["scores"].Obj? && ScoreKeys <= j.fields["scores"].fields.Keys
       && ReadReal(j.fields["scores"].fields["cnn_score"]).Some?
       && ReadReal(j.fields["scores"].fields["ocr_confidence"]).Some?
       && ReadReal(j.fields["scores"].fields["db_match_score"]).Some?
       && j.fields["scores"].fields["final_score"].Real?
       && j.fields["verdict"].Str? && ReadTime(j.fields["validated_at"]).Some?
    then
      var s := j.fields["scores"].fields;
      Some(ResultRow(j.fields["id"].i, j.fields["document_id"].i,
                     ReadReal(s["cnn_score"]).value, ReadReal(s["ocr_confidence"]).value,
                     ReadReal(s["db_match_score"]).value, s["final_score"].r,
                     j.fields["verdict"].s, j.fields["extracted_data"], j.fields["field_matches"],
                     ReadTime(j.fields["validated_at"]).value))
    else None
  }

  lemma ResultDictRoundTrip(r: ResultRow)
    ensures ResultFromDict(ResultToDict(r)) == Some(r)
  {
  }

  /** A row of `institution_records`: the ground truth documents are checked against. */
  datatype InstitutionRecord = InstitutionRecord(
    id: int,
    institutionId: int,
    name: string,
    idNumber: string,
    metadataFields: J.Value,
    createdAt: Option<nat>)

  const RecordKeys: set<string> := {"id", "institution_id", "name", "id_number", "metadata_fields", "created_at"}

  function RecordToDict(r: InstitutionRecord): (j: J.Value)
    ensures j.Obj? && j.fields.Keys == RecordKeys && "metadata" !in j.fields
    ensures j.fields["metadata_fields"] == r.metadataFields
    ensures j.fields["created_at"] == J.Null <==> r.createdAt.None?
  {
    J.Obj(map[
      "id" := J.Int(r.id),
      "institution_id" := J.Int(r.institutionId),
      "name" := J.Str(r.name),
      "id_number" := J.Str(r.idNumber),
      "metadata_fields" := r.metadataFields,
      "created_at" := J.OptTime(r.createdAt)])
  }

  function RecordFromDict(j: J.Value): Option<InstitutionRecord> {
    if j.Obj? && RecordKeys <= j.fields.Keys
       && j.fields["id"].Int? && j.fields["institution_id"].Int?
       && j.fields["name"].Str? && j.fields["id_number"].Str?
       && ReadTime(j.fields["created_at"]).Some?
    then Some(InstitutionRecord(j.fields["id"].i, j.fields["institution_id"].i, j.fields["name"].s,
                                j.fields["id_number"].s, j.fields["metadata_fields"],
                                ReadTime(j.fields["created_at"]).value))
    else None
  }

  lemma RecordDictRoundTrip(r: InstitutionRecord)
    ensures RecordFromDict(RecordToDict(r)) == Some(r)
  {
  }
}

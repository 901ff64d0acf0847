/** The validation pipeline: the verdict bands, the cross-check of extracted fields against
    institution records, the score combination, and the store operations `validate_document`,
    `revalidate_document`, `get_result` and `get_validation_history`. The CNN score, the OCR
    confidence and the extracted fields come from foreign models and are inputs here. */
module ValidationService {

  import opened Wrappers
  import opened Strings
  import opened Models
  import opened Store
  import opened Ordering
  import J = Json

  // ---------------------------------------------------------------- verdict

  const AuthenticThreshold: real := 0.90
  const SuspiciousThreshold: real := 0.70

  /** `calculate_verdict`: three bands on the final score. */
  function CalculateVerdict(score: real): (v: string)
    ensures score >= AuthenticThreshold ==> v == "AUTHENTIC"
    ensures SuspiciousThreshold <= score < AuthenticThreshold ==> v == "SUSPICIOUS"
    ensures score < SuspiciousThreshold ==> v == "FAKE"
  {
    if score >= AuthenticThreshold then "AUTHENTIC"
    else if score >= SuspiciousThreshold then "SUSPICIOUS"
    else "FAKE"
  }

  /** FAKE < SUSPICIOUS < AUTHENTIC. */
  function VerdictRank(v: string): nat {
    if v == "AUTHENTIC" then 2 else if v == "SUSPICIOUS" then 1 else 0
  }

  /** A higher score never gives a worse verdict. */
  lemma VerdictMonotone(a: real, b: real)
    requires a <= b
    ensures VerdictRank(CalculateVerdict(a)) <= VerdictRank(CalculateVerdict(b))
  {
  }

  // ---------------------------------------------------------------- institution cross-check

  /** The fields the OCR step extracted; a JSON `null` is `None`. */
  type Fields = map<string, Option<string>>

  /** `extracted_fields.get(key)`. */
  function Field(fields: Fields, key: string): Option<string> {
    if key in fields then fields[key] else None
  }

  function FieldsToJson(fields: Fields): (v: J.Value)
    ensures v.Obj? && v.fields.Keys == fields.Keys
  {
    J.Obj(map k | k in fields :: if fields[k].Some? then J.Str(fields[k].value) else J.Null)
  }

  /** What the record lookup by id number yields: the record's name and the name of the
      institution (user) that owns it. */
  datatype RecordMatch = RecordMatch(name: string, institutionName: string)

  /** The lookup agrees with the stored records: it finds a record with exactly that id number
      when there is one, and reports its name and its institution's name. */
  ghost predicate LookupFaithful(lookup: string -> Option<RecordMatch>, records: map<int, InstitutionRecord>, users: map<int, User>) {
    forall idNumber :: (lookup(idNumber).Some? <==> exists k :: k in records && records[k].idNumber == idNumber)
      && (lookup(idNumber).Some? ==>
            exists k :: k in records && records[k].idNumber == idNumber && records[k].institutionId in users
              && lookup(idNumber).value == RecordMatch(records[k].name, users[records[k].institutionId].name))
  }

  /** Name check: equal after stripping and lower-casing both sides. Letter case and
      surrounding whitespace never spoil a match, and matching names have the same stripped
      length. */
  function NameMatches(extracted: string, recordName: string): (ok: bool)
    ensures ok <==> Strip(Lower(extracted)) == Strip(Lower(recordName))
    ensures Lower(extracted) == Lower(recordName) || Strip(extracted) == Strip(recordName) ==> ok
    ensures ok ==> |Strip(extracted)| == |Strip(recordName)|
  {
    StripLowerCommute(extracted);
    StripLowerCommute(recordName);
    Lower(Strip(extracted)) == Lower(Strip(recordName))
  }

  /** Institution check: the stripped, lower-cased extracted text occurs in the lower-cased
      institution name. Text that is only whitespace matches every institution, and the
      institution's own name matches in any letter case. */
  function InstitutionMatches(extracted: string, institutionName: string): (ok: bool)
    ensures Strip(extracted) == "" ==> ok
    ensures Lower(Strip(extracted)) == Lower(institutionName) ==> ok
    ensures ok ==> |Strip(extracted)| <= |institutionName|
  {
    var needle := Lower(Strip(extracted));
    var hay := Lower(institutionName);
    assert needle == [] || needle == hay ==> OccursAt(hay, needle, 0);
    Contains(hay, needle)
  }

  datatype MatchResult = MatchResult(score: real, matches: map<string, bool>)

  function Indicator(b: bool): real {
    if b then 1.0 else 0.0
  }

  /** Python's `sum` over a list of floats. */
  function Sum(s: seq<real>): real {
    if s == [] then 0.0 else Sum(s[..|s| - 1]) + s[|s| - 1]
  }

  function Indicators(bs: seq<bool>): (s: seq<real>)
    ensures |s| == |bs| && forall i :: 0 <= i < |bs| ==> s[i] == Indicator(bs[i])
  {
    seq(|bs|, i requires 0 <= i < |bs| => Indicator(bs[i]))
  }

  /** A sum of 0/1 components lies between 0 and their number, and reaches the number exactly
      when every component is 1. */
  lemma {:induction false} SumOfIndicators(bs: seq<bool>)
    ensures 0.0 <= Sum(Indicators(bs)) <= |bs| as real
    ensures Sum(Indicators(bs)) == |bs| as real <==> forall i :: 0 <= i < |bs| ==> bs[i]
    decreases |bs|
  {
    if bs != [] {
      var init := bs[..|bs| - 1];
      assert Indicators(bs)[..|bs| - 1] == Indicators(init);
      SumOfIndicators(init);
      if Sum(Indicators(bs)) == |bs| as real {
        forall i | 0 <= i < |bs| ensures bs[i] {
          if i < |bs| - 1 { assert init[i] == bs[i]; }
        }
      }
      if forall i :: 0 <= i < |bs| ==> bs[i] {
        assert forall i :: 0 <= i < |init| ==> init[i];
      }
    }
  }

  /** The mean of the components as `sum(…) / len(…)`. */
  function Mean(bs: seq<bool>): (m: real)
    requires bs != []
    ensures 0.0 <= m <= 1.0
    ensures m == 1.0 <==> forall i :: 0 <= i < |bs| ==> bs[i]
  {
    SumOfIndicators(bs);
    Sum(Indicators(bs)) / |bs| as real
  }

  /** The match once a record is found. The components are, in order, the id number (always
      1), the name when one was extracted (`nameOk` is its outcome) and the institution when
      one was extracted; the score is their mean and `matches` records each check by its
      field name. */
  function MatchOf(nameChecked: bool, nameOk: bool, instChecked: bool, instOk: bool): (r: MatchResult)
    ensures "id_number" in r.matches && r.matches["id_number"]
    ensures r.matches.Keys <= {"id_number", "name", "institution"}
    ensures ("name" in r.matches <==> nameChecked) && (nameChecked ==> r.matches["name"] == nameOk)
    ensures ("institution" in r.matches <==> instChecked) && (instChecked ==> r.matches["institution"] == instOk)
    ensures 0.0 < r.score <= 1.0
    ensures r.score == 1.0 <==> (nameChecked ==> nameOk) && (instChecked ==> instOk)
  {
    var components := [true] + (if nameChecked then [nameOk] else []) + (if instChecked then [instOk] else []);
    var matches := map["id_number" := true]
      + (if nameChecked then map["name" := nameOk] else map[])
      + (if instChecked then map["institution" := instOk] else map[]);
    MeanPositive(components);
    assert (forall i :: 0 <= i < |components| ==> components[i])
       <==> (nameChecked ==> nameOk) && (instChecked ==> instOk) by {
      if nameChecked { assert components[1] == nameOk; }
      if instChecked { assert components[|components| - 1] == instOk; }
    }
    MatchResult(Mean(components), matches)
  }

  /** The match against a found record. */
  function FoundMatch(fields: Fields, rec: RecordMatch): (r: MatchResult)
    ensures "id_number" in r.matches && r.matches["id_number"]
    ensures r.matches.Keys <= {"id_number", "name", "institution"}
    ensures "name" in r.matches <==> Truthy(Field(fields, "name"))
    ensures "name" in r.matches ==> r.matches["name"] == NameMatches(Field(fields, "name").value, rec.name)
    ensures "institution" in r.matches <==> Truthy(Field(fields, "institution"))
    ensures "institution" in r.matches ==>
              r.matches["institution"] == InstitutionMatches(Field(fields, "institution").value, rec.institutionName)
    ensures 0.0 < r.score <= 1.0
    ensures r.score == 1.0 <==> forall k :: k in r.matches ==> r.matches[k]
  {
    var name := Field(fields, "name");
    var inst := Field(fields, "institution");
    var r := MatchOf(Truthy(name), Truthy(name) && NameMatches(name.value, rec.name),
                     Truthy(inst), Truthy(inst) && InstitutionMatches(inst.value, rec.institutionName));
    assert (forall k :: k in r.matches ==> r.matches[k])
       <==> (Truthy(name) ==> r.matches["name"]) && (Truthy(inst) ==> r.matches["institution"]) by {
      if (Truthy(name) ==> r.matches["name"]) && (Truthy(inst) ==> r.matches["institution"]) {
        forall k | k in r.matches ensures r.matches[k] {
          assert k == "id_number" || k == "name" || k == "institution";
        }
      }
    }
    r
  }

  /** `verify_against_institution_data`, with the record query given as `lookup`. */
  function VerifyAgainstInstitutionData(fields: Fields, lookup: string -> Option<RecordMatch>): (r: MatchResult)
    ensures 0.0 <= r.score <= 1.0
    ensures !Truthy(Field(fields, "id_number")) ==> r == MatchResult(0.0, map[])
    ensures Truthy(Field(fields, "id_number")) && lookup(Field(fields, "id_number").value).None? ==>
              r == MatchResult(0.0, map["id_number" := false])
    ensures Truthy(Field(fields, "id_number")) && lookup(Field(fields, "id_number").value).Some? ==>
              var rec := lookup(Field(fields, "id_number").value).value;
              && "id_number" in r.matches && r.matches["id_number"]
              && r.matches.Keys <= {"id_number", "name", "institution"}
              && ("name" in r.matches <==> Truthy(Field(fields, "name")))
              && ("name" in r.matches ==> r.matches["name"] == NameMatches(Field(fields, "name").value, rec.name))
              && ("institution" in r.matches <==> Truthy(Field(fields, "institution")))
              && ("institution" in r.matches ==>
                    r.matches["institution"] == InstitutionMatches(Field(fields, "institution").value, rec.institutionName))
              && r.score > 0.0
              && (r.score == 1.0 <==> forall k :: k in r.matches ==> r.matches[k])
  {
    var idNumber := Field(fields, "id_number");
    if !Truthy(idNumber) then MatchResult(0.0, map[])
    else match lookup(idNumber.value)
      case None => MatchResult(0.0, map["id_number" := false])
      case Some(rec) =>
        FoundMatch(fields, rec)
  }

  /** A first component of 1 makes the sum at least 1. */
  lemma {:induction false} MeanPositive(bs: seq<bool>)
    requires bs != [] && bs[0]
    ensures Sum(Indicators(bs)) >= 1.0
    decreases |bs|
  {
    if |bs| > 1 {
      var init := bs[..|bs| - 1];
      assert Indicators(bs)[..|bs| - 1] == Indicators(init);
      MeanPositive(init);
      SumOfIndicators([bs[|bs| - 1]]);
      SumOfIndicators(init);
    } else {
      assert Indicators(bs)[..0] == [];
    }
  }

  // ---------------------------------------------------------------- score combination

  /** Step 8: the weighted sum 0.4·cnn + 0.2·ocr + 0.4·db (rounding to 4 places left out). */
  function CombineScores(cnn: real, ocr: real, dbMatch: real): (f: real)
    ensures 0.0 <= cnn <= 1.0 && 0.0 <= ocr <= 1.0 && 0.0 <= dbMatch <= 1.0 ==> 0.0 <= f <= 1.0
    ensures cnn == ocr == dbMatch ==> f == cnn
  {
    cnn * 0.4 + ocr * 0.2 + dbMatch * 0.4
  }

  /** Raising any one sub-score never lowers the final score. */
  lemma CombineMonotone(cnn: real, ocr: real, dbMatch: real, cnn': real, ocr': real, dbMatch': real)
    requires cnn <= cnn' && ocr <= ocr' && dbMatch <= dbMatch'
    ensures CombineScores(cnn, ocr, dbMatch) <= CombineScores(cnn', ocr', dbMatch')
  {
  }

  // ---------------------------------------------------------------- usage limit

  const FreeValidationLimit: nat := 10

  /** A free account ('user' role, not paid) that has used its ten validations. Institutions,
      admins and paid accounts are never limited. */
  function AtUsageLimit(u: User): (ok: bool)
    ensures u.role != "user" || u.isPaid ==> !ok
    ensures u.role == "user" && !u.isPaid ==> (ok <==> u.validationCount >= 10)
  {
    u.role == "user" && !u.isPaid && u.validationCount >= FreeValidationLimit
  }

  /** The attributes an instance of the `User` model class carries: its declared columns. */
  const UserColumns: set<string> := {"id", "email", "password_hash", "name", "role", "created_at"}

  /** The usage check as written: it reads `is_paid` and `validation_count` off the user
      object. Reading an attribute the object lacks raises AttributeError; comparing a value
      that is not a number with 10 raises TypeError. `Ok(b)` says whether the limit is hit. */
  function UsageCheckAsWritten(role: string, attributes: map<string, J.Value>): (r: Outcome<bool>)
    ensures !r.ValueErr?
    ensures role != "user" ==> r == Ok(false)
    ensures role == "user" && "is_paid" !in attributes ==> r == OtherErr
    ensures r == Ok(true) ==> role == "user" && "is_paid" in attributes && !J.IsTruthy(attributes["is_paid"])
  {
    if role != "user" then Ok(false)
    else if "is_paid" !in attributes then OtherErr
    else if J.IsTruthy(attributes["is_paid"]) then Ok(false)
    else if "validation_count" !in attributes then OtherErr
    else match attributes["validation_count"]
      case Int(i) => Ok(i >= FreeValidationLimit)
      case Real(x) => Ok(x >= FreeValidationLimit as real)
      case Bool(_) => Ok(false)
      case _ => OtherErr
  }

  /** Every account the `User` class can load lacks both attributes, so for the default role
      'user' the check raises instead of deciding. */
  lemma UsageCheckAsWrittenRaises(attributes: map<string, J.Value>)
    requires attributes.Keys == UserColumns
    ensures UsageCheckAsWritten("user", attributes) == OtherErr
  {
  }

  /** A user's attributes once `is_paid` and `validation_count` are columns of the model. */
  function UserAttributes(u: User): (a: map<string, J.Value>)
    ensures a.Keys == UserColumns + {"is_paid", "validation_count"}
  {
    map[
      "id" := J.Int(u.id), "email" := J.Str(u.email), "password_hash" := J.Str(u.passwordHash.secret),
      "name" := J.Str(u.name), "role" := J.Str(u.role), "created_at" := J.OptTime(u.createdAt),
      "is_paid" := J.Bool(u.isPaid), "validation_count" := J.Int(u.validationCount)]
  }

  /** With the two columns present, the code as written decides exactly `AtUsageLimit`. */
  lemma UsageCheckWithColumns(u: User)
    ensures UsageCheckAsWritten(u.role, UserAttributes(u)) == Ok(AtUsageLimit(u))
  {
  }

  // ---------------------------------------------------------------- validate_document

  /** The guards of `validate_document`, in order: the user exists, is under the usage limit,
      the document exists, and the user owns it. */
  function ValidationGuard(users: map<int, User>, documents: map<int, Document>, docId: int, userId: int): (g: Option<string>)
    ensures g.None? <==>
              userId in users && !AtUsageLimit(users[userId]) && docId in documents && documents[docId].userId == userId
    ensures g == Some("USER_NOT_FOUND") <==> userId !in users
    ensures g == Some("USAGE_LIMIT_REACHED") <==> userId in users && AtUsageLimit(users[userId])
    ensures g == Some("NOT_FOUND") <==> userId in users && !AtUsageLimit(users[userId]) && docId !in documents
    ensures g == Some("FORBIDDEN") <==>
              userId in users && !AtUsageLimit(users[userId]) && docId in documents && documents[docId].userId != userId
  {
    if userId !in users then Some("USER_NOT_FOUND")
    else if AtUsageLimit(users[userId]) then Some("USAGE_LIMIT_REACHED")
    else if docId !in documents then Some("NOT_FOUND")
    else if documents[docId].userId != userId then Some("FORBIDDEN")
    else None
  }

  /** The limit is decided before any document is looked up: an account at the limit gets
      USAGE_LIMIT_REACHED for every document id, existing, missing or foreign. */
  lemma UsageLimitPrecedesDocument(users: map<int, User>, documents: map<int, Document>, documents': map<int, Document>, docId: int, docId': int, userId: int)
    requires userId in users && AtUsageLimit(users[userId])
    ensures ValidationGuard(users, documents, docId, userId) == ValidationGuard(users, documents', docId', userId)
  {
  }

  /** The inputs the foreign models supply: the CNN score, the OCR confidence and the
      extracted fields. */
  datatype Pipeline = Pipeline(cnnScore: real, ocrConfidence: real, extracted: Fields)

  /** The row step 9 stores. */
  function NewResult(resultId: int, docId: int, p: Pipeline, lookup: string -> Option<RecordMatch>, now: nat): (r: ResultRow)
    ensures r.id == resultId && r.documentId == docId && r.validatedAt == Some(now)
    ensures r.dbMatchScore == Some(VerifyAgainstInstitutionData(p.extracted, lookup).score)
    ensures r.finalScore == CombineScores(p.cnnScore, p.ocrConfidence, r.dbMatchScore.value)
    ensures r.verdict == CalculateVerdict(r.finalScore)
    ensures 0.0 <= p.cnnScore <= 1.0 && 0.0 <= p.ocrConfidence <= 1.0 ==> 0.0 <= r.finalScore <= 1.0
  {
    var m := VerifyAgainstInstitutionData(p.extracted, lookup);
    var final := CombineScores(p.cnnScore, p.ocrConfidence, m.score);
    ResultRow(resultId, docId, Some(p.cnnScore), Some(p.ocrConfidence), Some(m.score), final,
              CalculateVerdict(final), FieldsToJson(p.extracted), J.BoolObj(m.matches), Some(now))
  }

  /** `user.validation_count += 1` for the 'user' role only. */
  function CountValidation(u: User): (u': User)
    ensures u'.validationCount == u.validationCount + (if u.role == "user" then 1 else 0)
    ensures u'.(validationCount := u.validationCount) == u
  {
    if u.role == "user" then u.(validationCount := u.validationCount + 1) else u
  }

  /** The outcome of a store operation with the tables it changes. */
  datatype Step = Step(out: Outcome<ResultRow>, users: map<int, User>, results: map<int, ResultRow>)

  /** `validate_document` on the tables, storing a new result under id `resultId`. */
  function ValidateSpec(
    users: map<int, User>, documents: map<int, Document>, results: map<int, ResultRow>,
    docId: int, userId: int, p: Pipeline, lookup: string -> Option<RecordMatch>, resultId: int, now: nat): (s: Step)
    ensures ValidationGuard(users, documents, docId, userId).Some? ==>
              s == Step(ValueErr(ValidationGuard(users, documents, docId, userId).value), users, results)
    ensures ValidationGuard(users, documents, docId, userId).None? && docId in results ==>
              s == Step(Ok(results[docId]), users, results)
    ensures ValidationGuard(users, documents, docId, userId).None? && docId !in results ==>
              && s.out == Ok(NewResult(resultId, docId, p, lookup, now))
              && s.results == results[docId := s.out.value]
              && s.users.Keys == users.Keys
              && s.users[userId].validationCount == users[userId].validationCount + (if users[userId].role == "user" then 1 else 0)
              && s.users[userId].(validationCount := users[userId].validationCount) == users[userId]
              && (forall id :: id in users && id != userId ==> s.users[id] == users[id])
  {
    var g := ValidationGuard(users, documents, docId, userId);
    if g.Some? then Step(ValueErr(g.value), users, results)
    else if docId in results then Step(Ok(results[docId]), users, results)
    else
      var r := NewResult(resultId, docId, p, lookup, now);
      Step(Ok(r), users[userId := CountValidation(users[userId])], results[docId := r])
  }

  /** Validating twice is validating once while the account stays under the limit: the
      second call returns the stored result, even with different model outputs, and changes
      neither the result nor the counter. */
  lemma ValidateIdempotent(
    users: map<int, User>, documents: map<int, Document>, results: map<int, ResultRow>,
    docId: int, userId: int, p: Pipeline, p': Pipeline, lookup: string -> Option<RecordMatch>,
    resultId: int, resultId': int, now: nat, now': nat)
    requires ValidateSpec(users, documents, results, docId, userId, p, lookup, resultId, now).out.Ok?
    requires !AtUsageLimit(ValidateSpec(users, documents, results, docId, userId, p, lookup, resultId, now).users[userId])
    ensures var s := ValidateSpec(users, documents, results, docId, userId, p, lookup, resultId, now);
            var t := ValidateSpec(s.users, documents, s.results, docId, userId, p', lookup, resultId', now');
            t == Step(s.out, s.users, s.results)
  {
  }

  /** But the guards run first: a free account whose validation was its tenth is refused when
      it asks for the same document again, although the result is stored. */
  lemma TenthValidationBlocksReread(
    users: map<int, User>, documents: map<int, Document>, results: map<int, ResultRow>,
    docId: int, userId: int, p: Pipeline, p': Pipeline, lookup: string -> Option<RecordMatch>,
    resultId: int, resultId': int, now: nat, now': nat)
    requires userId in users && users[userId].role == "user" && !users[userId].isPaid
    requires users[userId].validationCount == FreeValidationLimit - 1
    requires docId in documents && documents[docId].userId == userId && docId !in results
    ensures var s := ValidateSpec(users, documents, results, docId, userId, p, lookup, resultId, now);
            var t := ValidateSpec(s.users, documents, s.results, docId, userId, p', lookup, resultId', now');
            s.out.Ok? && docId in s.results && t.out == ValueErr("USAGE_LIMIT_REACHED")
  {
  }

  /** The store operation. */
  method ValidateDocument(db: Database, docId: int, userId: int, p: Pipeline, lookup: string -> Option<RecordMatch>, now: nat)
    returns (out: Outcome<ResultRow>)
    requires db.Valid()
    requires LookupFaithful(lookup, db.records, db.users)
    modifies db
    ensures db.Valid()
    ensures Step(out, db.users, db.results)
            == ValidateSpec(old(db.users), old(db.documents), old(db.results), docId, userId, p, lookup, old(db.nextResultId), now)
    ensures db.documents == old(db.documents) && db.records == old(db.records)
    ensures db.nextUserId == old(db.nextUserId) && db.nextDocumentId == old(db.nextDocumentId)
    ensures db.nextRecordId == old(db.nextRecordId)
    ensures db.nextResultId == old(db.nextResultId) + (if db.results == old(db.results) then 0 else 1)
  {
    var g := ValidationGuard(db.users, db.documents, docId, userId);
    if g.Some? {
      return ValueErr(g.value);
    }
    if docId in db.results {
      return Ok(db.results[docId]);
    }
    var r := NewResult(db.nextResultId, docId, p, lookup, now);
    db.results := db.results[docId := r];
    db.nextResultId := db.nextResultId + 1;
    db.users := db.users[userId := CountValidation(db.users[userId])];
    out := Ok(r);
  }

  // ---------------------------------------------------------------- revalidate_document

  /** `revalidate_document`: the ownership guards, the removal of any stored result
      (committed at once), then `validate_document`. */
  function RevalidateSpec(
    users: map<int, User>, documents: map<int, Document>, results: map<int, ResultRow>,
    docId: int, userId: int, p: Pipeline, lookup: string -> Option<RecordMatch>, resultId: int, now: nat): (s: Step)
    ensures docId !in documents ==> s == Step(ValueErr("NOT_FOUND"), users, results)
    ensures docId in documents && documents[docId].userId != userId ==> s == Step(ValueErr("FORBIDDEN"), users, results)
    ensures docId in documents && documents[docId].userId == userId ==>
              s == ValidateSpec(users, documents, results - {docId}, docId, userId, p, lookup, resultId, now)
    ensures docId in documents && documents[docId].userId == userId ==>
              && (s.out.Ok? ==> s.out == Ok(NewResult(resultId, docId, p, lookup, now)) && s.results == results[docId := s.out.value])
              && (s.out.Ok? ==> userId in users && s.users == users[userId := CountValidation(users[userId])])
              && (!s.out.Ok? ==> s.results == results - {docId} && s.users == users)
              && (forall d :: d in results && d != docId ==> d in s.results && s.results[d] == results[d])
  {
    if docId !in documents then Step(ValueErr("NOT_FOUND"), users, results)
    else if documents[docId].userId != userId then Step(ValueErr("FORBIDDEN"), users, results)
    else ValidateSpec(users, documents, results - {docId}, docId, userId, p, lookup, resultId, now)
  }

  /** An account at its usage limit that asks to re-validate its own validated document gets
      USAGE_LIMIT_REACHED and has lost the stored result. */
  lemma RevalidateAtLimitDropsResult(
    users: map<int, User>, documents: map<int, Document>, results: map<int, ResultRow>,
    docId: int, userId: int, p: Pipeline, lookup: string -> Option<RecordMatch>, resultId: int, now: nat)
    requires docId in documents && documents[docId].userId == userId && docId in results
    requires userId in users && AtUsageLimit(users[userId])
    ensures var s := RevalidateSpec(users, documents, results, docId, userId, p, lookup, resultId, now);
            s.out == ValueErr("USAGE_LIMIT_REACHED") && docId !in s.results
  {
  }

  method RevalidateDocument(db: Database, docId: int, userId: int, p: Pipeline, lookup: string -> Option<RecordMatch>, now: nat)
    returns (out: Outcome<ResultRow>)
    requires db.Valid()
    requires LookupFaithful(lookup, db.records, db.users)
    modifies db
    ensures db.Valid()
    ensures Step(out, db.users, db.results)
            == RevalidateSpec(old(db.users), old(db.documents), old(db.results), docId, userId, p, lookup, old(db.nextResultId), now)
    ensures db.documents == old(db.documents) && db.records == old(db.records)
  {
    if docId !in db.documents {
      return ValueErr("NOT_FOUND");
    }
    if db.documents[docId].userId != userId {
      return ValueErr("FORBIDDEN");
    }
    db.results := db.results - {docId};
    out := ValidateDocument(db, docId, userId, p, lookup, now);
  }

  // ---------------------------------------------------------------- get_result

  /** `get_result`: NOT_FOUND, then FORBIDDEN, then NOT_VALIDATED. */
  function GetResult(documents: map<int, Document>, results: map<int, ResultRow>, docId: int, userId: int): (r: Outcome<ResultRow>)
    ensures r.Ok? <==> docId in documents && documents[docId].userId == userId && docId in results
    ensures r.Ok? ==> r.value == results[docId]
    ensures r == ValueErr("NOT_FOUND") <==> docId !in documents
    ensures r == ValueErr("FORBIDDEN") <==> docId in documents && documents[docId].userId != userId
    ensures r == ValueErr("NOT_VALIDATED") <==> docId in documents && documents[docId].userId == userId && docId !in results
  {
    if docId !in documents then ValueErr("NOT_FOUND")
    else if documents[docId].userId != userId then ValueErr("FORBIDDEN")
    else if docId !in results then ValueErr("NOT_VALIDATED")
    else Ok(results[docId])
  }

  /** What a successful validation returns is what `get_result` reads back afterwards. */
  lemma GetResultAfterValidate(
    users: map<int, User>, documents: map<int, Document>, results: map<int, ResultRow>,
    docId: int, userId: int, p: Pipeline, lookup: string -> Option<RecordMatch>, resultId: int, now: nat)
    requires ValidateSpec(users, documents, results, docId, userId, p, lookup, resultId, now).out.Ok?
    ensures var s := ValidateSpec(users, documents, results, docId, userId, p, lookup, resultId, now);
            GetResult(documents, s.results, docId, userId) == s.out
  {
  }

  // ---------------------------------------------------------------- get_validation_history

  /** A history row: the result's dict with its document's dict under 'document'. */
  datatype HistoryEntry = HistoryEntry(result: ResultRow, document: Document)

  function HistoryEntryToDict(e: HistoryEntry): (j: J.Value)
    ensures j.Obj? && j.fields.Keys == ResultKeys + {"document"}
    ensures j.fields["document"] == DocumentToDict(e.document, true)
  {
    var r := ResultToDict(e.result);
    J.Obj(r.fields["document" := DocumentToDict(e.document, true)])
  }

  /** `validated_at DESC`: a missing timestamp sorts below every present one. */
  function HistoryKey(e: HistoryEntry): int {
    TimeKey(e.result.validatedAt)
  }

  function EntryDocumentId(e: HistoryEntry): int {
    e.result.documentId
  }

  /** The rows the history query selects: results of the user's documents, with the given
      verdict when a filter is set. */
  predicate InHistory(documents: map<int, Document>, results: map<int, ResultRow>, userId: int, verdictFilter: Option<string>, d: int) {
    d in results && d in documents && documents[d].userId == userId
    && (Truthy(verdictFilter) ==> results[d].verdict == verdictFilter.value)
  }

  predicate IsHistoryEntry(documents: map<int, Document>, results: map<int, ResultRow>, userId: int, verdictFilter: Option<string>, e: HistoryEntry) {
    var d := e.result.documentId;
    InHistory(documents, results, userId, verdictFilter, d) && e.result == results[d] && e.document == documents[d]
  }

  /** `get_validation_history` (pagination left out): every selected row once, newest first,
      and the total count. */
  method GetValidationHistory(db: Database, userId: int, verdictFilter: Option<string>)
    returns (entries: seq<HistoryEntry>, total: nat)
    requires db.Valid()
    ensures total == |entries|
    ensures SortedDesc(entries, HistoryKey)
    ensures forall i :: 0 <= i < |entries| ==> IsHistoryEntry(db.documents, db.results, userId, verdictFilter, entries[i])
    ensures forall d :: HasId(entries, EntryDocumentId, d) <==> InHistory(db.documents, db.results, userId, verdictFilter, d)
    ensures DistinctIds(entries, EntryDocumentId)
  {
    var documents, results := db.documents, db.results;
    entries := [];
    for d := 1 to db.nextDocumentId
      invariant SortedDesc(entries, HistoryKey)
      invariant forall i :: 0 <= i < |entries| ==> IsHistoryEntry(documents, results, userId, verdictFilter, entries[i])
      invariant forall k :: HasId(entries, EntryDocumentId, k) <==>
                  1 <= k < d && InHistory(documents, results, userId, verdictFilter, k)
      invariant DistinctIds(entries, EntryDocumentId)
    {
      if InHistory(documents, results, userId, verdictFilter, d) {
        var e := HistoryEntry(results[d], documents[d]);
        assert results[d].documentId == d;
        InsertDescKeeps(entries, e, HistoryKey, EntryDocumentId,
                        x => IsHistoryEntry(documents, results, userId, verdictFilter, x));
        entries := InsertDesc(entries, e, HistoryKey);
      }
    }
    total := |entries|;
  }
}

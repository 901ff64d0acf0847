# Document Validator — a verified model of its decision logic

Document Validator lets people upload identity and certificate documents (PDF, JPEG, PNG),
runs them through a validation pipeline and reports a verdict: AUTHENTIC, SUSPICIOUS or FAKE.
The pipeline combines three scores: a CNN score, an OCR confidence, and a match score from
cross-checking the extracted fields against institution records. Institutions keep those
records in the system. A Flask backend exposes accounts, uploads, validation, history and
institution records as JSON endpoints behind bearer-token authentication. A React front end
drives them.

This Dafny project models the decision logic of both halves.

Backend:
- **Database.** `Store.Database` is a class whose tables are maps from ids to rows, with next-id counters.
- **Serialisers.** The model classes' `to_dict` are functions (`Models`).
- **File checks.** `FileUtils` covers the file-name and magic-byte checks. The uploaded stream is a small class (`FileUtils.Stream`) whose read position is rewound.
- **Envelopes.** `ResponseUtils` builds the response envelope and the pagination block. It also models Python's call binding for `success_response`.
- **Services.** `AuthService` registers, logs in and changes passwords. `UploadService` saves, reads, deletes and lists documents. `ValidationService` runs validation, re-validation, result lookup and history. Each service is a specification function over the tables plus a method that changes the database accordingly.
- **Token guard.** `AuthMiddleware` is the bearer-token guard.
- **Blueprints.** One module per blueprint maps service outcomes to HTTP responses, with its page clamps.

Front end:
- **Validators.** `Validators` holds the file and email checks.
- **Request hook.** `UseApi` is the request hook, with its loading and error state.
- **Session and routing.** `AuthContext` is the session holder (a class over user, token, loading and the stored token), with the route guard and the dashboard dispatch.
- **Pages.** Four page modules (`UploadPage`, `HistoryPage`, `InstitutionRecordsPage`, `RegisterPage`/`AdminRegisterPage`) are classes whose handlers update the page state.

Server replies, foreign-model outputs, clock readings and random identifiers are parameters.

## Model

| member | source | states |
|---|---|---|
| Models.NewUser | backend/models/user.py:10-15 | a new row carries the given id, email, name and role, accepts the password it was created with, and starts unpaid with no validations counted |
| Models.SetPassword | backend/models/user.py:20-22 | afterwards exactly the new password is accepted, and nothing but the hash has changed |
| Models.CheckPassword | backend/models/user.py:24-26 | a password is accepted exactly when the stored hash is that password's hash |
| Models.UserToDict | backend/models/user.py:28-36 | the dict has exactly the five public keys and never `password_hash`; `created_at` is null exactly when the row has no timestamp |
| Models.UserToDictHidesPassword | backend/models/user.py:28-36 | two users differing only in their password hash serialise identically |
| Models.UserDictRoundTrip | backend/models/user.py:28-36 | reading the dict back yields the user's public fields unchanged |
| Models.DocumentToDict | backend/models/document.py:20-31 | exactly the eight keys; `has_result` tells whether a result is attached; `uploaded_at` is null exactly when unset |
| Models.DocumentDictRoundTrip | backend/models/document.py:20-31 | reading the dict back yields the same document and the same `has_result` |
| Models.ResultToDict | backend/models/result.py:20-35 | exactly the listed keys, the four scores nested under `scores`, the verdict as stored, `validated_at` null exactly when unset |
| Models.ResultDictRoundTrip | backend/models/result.py:20-35 | reading the dict back yields the same result row |
| Models.RecordToDict | backend/models/institution_record.py:19-27 | exactly the six keys; the metadata is returned verbatim under `metadata_fields` (there is no `metadata` key); `created_at` null exactly when unset |
| Models.RecordDictRoundTrip | backend/models/institution_record.py:19-27 | reading the dict back yields the same record |
| ResponseUtils.SuccessResponse | backend/utils/response_utils.py:4-11 | the status is the one given; `success` is true; `message` is present exactly when the message is truthy and `data` exactly when data is not `None` |
| ResponseUtils.ErrorResponse | backend/utils/response_utils.py:14-22 | an envelope with `success` false and an `error` holding exactly the given code and message, with the given status |
| ResponseUtils.PagesIsCeiling | backend/utils/response_utils.py:36 | `pages` is the ceiling of total over per_page: enough pages for every item, no spare one, and 0 for no items |
| ResponseUtils.PaginatedResponse | backend/utils/response_utils.py:25-39 | always 200 and a success; exactly the items given, under the given name; the pagination reports the total, the page and per_page raised to at least 1, and the page count is the ceiling of total over per_page |
| ResponseUtils.PaginationBounds | backend/utils/response_utils.py:27-36 | whatever per_page the caller passes, the reported per_page is at least 1 and the reported page count is the ceiling |
| ResponseUtils.CallSuccessResponse | backend/utils/response_utils.py:4 | a call binds under Python's rules (at most three positional arguments, known keywords only, nothing bound twice) or raises a TypeError; a bound call is the response builder applied to the bound arguments |
| ResponseUtils.KeywordCallIsSuccessResponse | backend/utils/response_utils.py:4-11 | passing everything by keyword is the response builder itself |
| ResponseUtils.MessageFirstWithDataRaises | backend/blueprints/institution.py:35 | a message passed first together with `data=` binds `data` twice and raises |
| ResponseUtils.MessageFirstLandsInData | backend/blueprints/institution.py:65 | a message passed first without `data=` becomes the `data` payload, and the envelope has no `message` |
| Store.PageOf | backend/blueprints/institution.py:80 | the page is at most per_page rows, the rows from offset (page-1)·per_page on in their order, and empty past the end |
| Store.OrmPage | backend/blueprints/institution.py:80 | with valid arguments it is `PageOf`; in every case it holds at most per_page rows (20 for a per_page below 1) |
| FileUtils.GetFileExtension | backend/utils/file_utils.py:16-20 | the extension never holds a dot, and a name without a dot has none |
| FileUtils.ExtensionIsAfterLastDot | backend/utils/file_utils.py:16-20 | the extension is the lower-cased text after the last dot |
| FileUtils.AllowedFile | backend/utils/file_utils.py:10-13 | a name is allowed exactly when its extension is in the allowed set, which needs a dot and a non-empty extension |
| FileUtils.GenerateStoredName | backend/utils/file_utils.py:23-26 | the stored name starts with the random hex and keeps the original extension; without an extension it is the hex alone, without a dot |
| FileUtils.SignaturesExactlyForAllowed | backend/utils/file_utils.py:55-60 | signatures exist exactly for the allowed extensions, in any letter case |
| FileUtils.MaxLength | backend/utils/file_utils.py:73 | the result is the length of the longest signature |
| FileUtils.PrefixDecides | backend/utils/file_utils.py:73-77 | reading only as many bytes as the longest signature decides the match exactly as the whole content would |
| FileUtils.SignatureTable | backend/utils/file_utils.py:55-60 | PDF content starts with `%PDF`, JPEG with FF D8 FF, PNG with the eight-byte PNG header; any other extension never matches |
| FileUtils.Stream.Read | backend/utils/file_utils.py:74 | the read returns the next n bytes or fewer at the end, and advances the position by what it returned |
| FileUtils.Stream.Seek | backend/utils/file_utils.py:75 | the position becomes the one asked for |
| FileUtils.ValidateFileContent | backend/utils/file_utils.py:63-77 | the verdict is whether the remaining content starts with one of the extension's signatures; an unknown extension reads nothing; otherwise the stream is rewound to 0 |
| Strings.StripLowerCommute | backend/services/auth_service.py:65 | lower-casing then stripping equals stripping then lower-casing, so the login lookup key is the registration key |
| AuthService.NormalizeEmail | backend/services/auth_service.py:23 | the registration key is the lower-cased, stripped email, the same string login computes in the other order; it is already lower-case and no longer than what was typed |
| AuthService.EmailFormatOk | backend/services/auth_service.py:27-29 | an accepted email has at least six characters, does not start with '@' and ends in two ASCII letters |
| AuthService.EmailFormatOkIsPattern | backend/services/auth_service.py:27-29 | splitting at the first '@' and the last '.' accepts exactly the strings the email regular expression matches |
| AuthService.RegisterCheck | backend/services/auth_service.py:14-35 | the checks pass only with all three fields present and a known role, and then yield the normalised email and the stripped name; a refusal carries one of the five input-check messages |
| AuthService.RegisterCheckOrder | backend/services/auth_service.py:14-35 | which message the first failing check gives (presence, role, email format, password length, name length), and that the checks pass exactly when all five hold |
| AuthService.RegisterSpec | backend/services/auth_service.py:12-57 | a failed check or a taken normalised email leaves the table unchanged with its message; otherwise exactly one row is added, with the normalised email, the stripped name, the role, the password, and the usage counters at zero |
| AuthService.RegisterKeepsEmailsUnique | backend/services/auth_service.py:37-51 | registering keeps emails unique across users |
| AuthService.GenerateToken | backend/services/auth_service.py:79-91 | the claims name the user, are issued now and expire 24 hours later |
| AuthService.FindByEmail | backend/services/auth_service.py:65 | a row is found exactly when some user has that email, and it is that user |
| AuthService.LoginSpec | backend/services/auth_service.py:60-76 | missing fields give the presence message; an unknown email and a wrong password give the same `INVALID_CREDENTIALS`; success exactly when the normalised email's user accepts the password |
| AuthService.RegisterThenLogin | backend/services/auth_service.py:23-65 | an account just registered logs in with the email as typed (any case, any surrounding spaces) and its password |
| AuthService.LoginFindsStoredUser | backend/services/auth_service.py:60-76 | when emails are unique, a stored user whose email is the normalised one and whose password checks is exactly what login returns |
| AuthService.RegisterUser | backend/services/auth_service.py:12-57 | the store ends as `RegisterSpec` says, the id counter advances only on success, the other tables are untouched, and success returns the user's dict with the token's claims |
| AuthService.RegisterConsistent | backend/services/auth_service.py:37-51 | a successful registration with the next user id keeps every table constraint of the database |
| AuthService.AddUser | backend/services/auth_service.py:50-51 | the commit installs the new users table and advances the user counter by one; no other table or counter changes |
| AuthService.LoginUser | backend/services/auth_service.py:60-76 | the outcome is `LoginSpec`'s, with the user's dict and the token's claims on success |
| AuthService.ChangePasswordSpec | backend/services/auth_service.py:99-118 | the checks in order (presence, new length, user exists, old password); success changes only the hash, to one that accepts the new password |
| AuthService.ChangePasswordThenLogin | backend/services/auth_service.py:99-118 | after a change the new password logs in and a different old one no longer does |
| AuthService.ChangePassword | backend/services/auth_service.py:99-118 | the users table changes exactly as `ChangePasswordSpec` says and only on success |
| AuthMiddleware.DecodeClaims | backend/middleware/auth_middleware.py:24-33 | a token decodes to its user id exactly while now is before its expiry; otherwise it has expired |
| AuthMiddleware.TokenLivesOneDay | backend/middleware/auth_middleware.py:24-33 | a token generated at some moment decodes for exactly 24 hours and is expired from then on |
| Strings.RemoveAll | backend/middleware/auth_middleware.py:18 | `str.replace(pat, '')` never lengthens the string and leaves a string without an occurrence of the pattern unchanged |
| AuthMiddleware.ExtractToken | backend/middleware/auth_middleware.py:16-18 | a token exists exactly when the header starts with 'Bearer ', and it is the header with every 'Bearer ' removed |
| AuthMiddleware.ExtractDropsPrefix | backend/middleware/auth_middleware.py:17-18 | the leading prefix is removed |
| AuthMiddleware.ExtractRemovesInnerPrefix | backend/middleware/auth_middleware.py:18 | the removal is not anchored: for any token part without a 'B' and any tail without 'Bearer ', 'Bearer ' + a + 'Bearer ' + b yields a + b, so an inner 'Bearer ' disappears from the token too |
| AuthMiddleware.ExtractIsOnePass | backend/middleware/auth_middleware.py:18 | the removal is a single pass, so a 'Bearer ' can survive it: 'Bearer ' + 'Be' + 'Bearer ' + 'arer ' yields the token 'Bearer ' |
| AuthMiddleware.ScanCutsOnlyTheInnerCopy | backend/middleware/auth_middleware.py:18 | a two-character head that cannot start an occurrence, then one occurrence, then a tail too short for another: the scan cuts only that occurrence, even where the head and the tail join into a new one |
| AuthMiddleware.TokenRequired | backend/middleware/auth_middleware.py:9-37 | every rejection is a 401 AUTH_ERROR; a missing or empty token, an expired or invalid token, and an unknown user each give their own message; a valid token for an existing user authorizes that user |
| AuthMiddleware.BarePrefixIsMissing | backend/middleware/auth_middleware.py:17-21 | a header that is only the prefix yields an empty token, reported as missing |
| AuthMiddleware.NoPrefixIsMissing | backend/middleware/auth_middleware.py:16-21 | a header without the prefix is reported as a missing token, whatever it holds |
| AuthMiddleware.Guarded | backend/middleware/auth_middleware.py:9-38 | the view runs with the authenticated user, or a 401 is returned and the view never runs |
| AuthMiddleware.FreshTokenAuthorizes | backend/middleware/auth_middleware.py:9-37 | a token issued for an existing user passes the guard during its lifetime and names that user |
| UploadService.UploadCheck | backend/services/upload_service.py:15-27 | no file or an empty name, a disallowed extension, and content that does not match the extension are rejected in that order with their messages; otherwise the lower-cased allowed extension |
| UploadService.SaveSpec | backend/services/upload_service.py:13-55 | a rejected upload leaves the table alone; an accepted one adds exactly one row owned by the caller, with the safe original name, the UUID-based stored name, the allowed extension as type and the whole file's size; a clashing stored name fails the commit |
| UploadService.SaveKeepsStoredNamesUnique | backend/services/upload_service.py:31-52 | an upload keeps stored names unique across the documents table |
| UploadService.CheckUpload | backend/services/upload_service.py:15-27 | the guards on a stream agree with UploadCheck on the stream's unread content; a missing file or a refused type leaves the stream where it was, and once the content check has read the header the stream is rewound to position 0 |
| UploadService.SaveFollowsCheck | backend/services/upload_service.py:15-27 | a refused upload gives the guard's own error and leaves the table as it was; past the guards, a failed save is the unspecified error with the table unchanged |
| UploadService.SaveDocument | backend/services/upload_service.py:13-55 | the database becomes SaveSpec's table and the result is the new row's dict; no other table changes |
| UploadService.SaveConsistent | backend/services/upload_service.py:31-52 | a successful save with the next document id keeps every table constraint of the database |
| UploadService.AddDocument | backend/services/upload_service.py:51-52 | the commit installs the new documents table and advances the document counter by one; no other table or counter changes |
| UploadService.GetDocument | backend/services/upload_service.py:68-75 | a missing id is NOT_FOUND, another user's document is FORBIDDEN, and only the owner gets the row |
| UploadService.GetDocumentSingleOwner | backend/services/upload_service.py:73-74 | two different users never both get the same document |
| UploadService.DeleteSpec | backend/services/upload_service.py:78-91 | deletion succeeds exactly when GetDocument does; it removes the document and its result and leaves every other row alone |
| UploadService.DeleteKeepsConsistent | backend/services/upload_service.py:86-88 | deletion keeps the schema's constraints: no result is left without its document |
| UploadService.DeleteDocument | backend/services/upload_service.py:78-91 | the database becomes DeleteSpec's tables and the answer is DeleteSpec's |
| UploadService.GetUserDocuments | backend/services/upload_service.py:58-65 | exactly the user's documents, newest upload first, each once; the total counts them all and the items are the requested page's dicts |
| ValidationService.CalculateVerdict | backend/services/validation_service.py:127-134 | a score of at least 0.90 is AUTHENTIC, at least 0.70 is SUSPICIOUS, anything lower is FAKE |
| ValidationService.VerdictMonotone | backend/services/validation_service.py:127-134 | a higher final score never gives a worse verdict |
| ValidationService.SumOfIndicators | backend/services/validation_service.py:115 | a sum of 0/1 components lies between 0 and their number, and equals the number exactly when every component is 1 |
| ValidationService.Mean | backend/services/validation_service.py:115 | the mean of a non-empty list of matches lies in [0, 1] and is 1 exactly when every check matched |
| ValidationService.MatchOf | backend/services/validation_service.py:94-120 | the id number always matches; name and institution appear in the matches exactly when checked; the score is in (0, 1] and is 1 exactly when every check made matched |
| ValidationService.FoundMatch | backend/services/validation_service.py:101-120 | name is checked exactly when a truthy name was extracted (strip and lower on both sides), institution exactly when a truthy institution was extracted (substring of the owner's lower-cased name); the score is 1 exactly when every entry matched |
| ValidationService.NameMatches | backend/services/validation_service.py:102-103 | names match exactly when they are equal once lower-cased and stripped; equal lower-cased or equal stripped names always match, and matching names have the same stripped length |
| ValidationService.InstitutionMatches | backend/services/validation_service.py:108-111 | a blank extracted institution always matches; a name equal to the institution's up to case and surrounding whitespace matches; a match is never longer than the institution's name |
| ValidationService.VerifyAgainstInstitutionData | backend/services/validation_service.py:79-120 | no truthy id number gives score 0 with no matches; an unknown id number gives score 0 with id_number false; a found record gives FoundMatch; the score is always in [0, 1] |
| ValidationService.MeanPositive | backend/services/validation_service.py:98-99 | with the id number's component first, the sum is at least 1, so a found record never scores 0 |
| ValidationService.CombineScores | backend/services/validation_service.py:179-182 | sub-scores in [0, 1] give a final score in [0, 1], and equal sub-scores give that same score |
| ValidationService.CombineMonotone | backend/services/validation_service.py:179-182 | raising any one sub-score never lowers the final score |
| ValidationService.AtUsageLimit | backend/services/validation_service.py:146-148 | only an unpaid account with the role 'user' can be at the limit, and it is there exactly when it has ten or more validations |
| ValidationService.UsageCheckAsWritten | backend/services/validation_service.py:145-148 | with the columns the `User` model declares: another role passes, a 'user' row without `is_paid` raises, and the limit can only be reported for a 'user' row whose `is_paid` is present and falsy |
| ValidationService.UsageCheckAsWrittenRaises | backend/services/validation_service.py:145-148 | for a user with only the model's declared columns, the check on the default 'user' role raises instead of deciding |
| ValidationService.UsageCheckWithColumns | backend/services/validation_service.py:145-148 | with the two columns present, the check decides exactly "free account that has used its ten validations" |
| ValidationService.ValidationGuard | backend/services/validation_service.py:141-154 | the guards in order: USER_NOT_FOUND, USAGE_LIMIT_REACHED, NOT_FOUND, FORBIDDEN; none fires exactly for an existing user under the limit who owns an existing document |
| ValidationService.UsageLimitPrecedesDocument | backend/services/validation_service.py:146-154 | an account at the limit is refused whatever document it names |
| ValidationService.NewResult | backend/services/validation_service.py:174-195 | the stored row carries the cross-check's score, the weighted final score and its verdict; the final score stays in [0, 1] when the model scores do |
| ValidationService.CountValidation | backend/services/validation_service.py:199-200 | only the 'user' role's counter goes up, by one, and nothing else about the user changes |
| ValidationService.ValidateSpec | backend/services/validation_service.py:137-205 | a failed guard changes nothing; an existing result is returned unchanged; otherwise one new result is stored for the document, the caller's counter moves by one exactly when their role is 'user', nothing else in the caller's row changes and every other user is unchanged |
| ValidationService.ValidateIdempotent | backend/services/validation_service.py:157-159 | validating again under the limit returns the stored result and changes nothing, whatever the model outputs |
| ValidationService.TenthValidationBlocksReread | backend/services/validation_service.py:145-159 | the tenth validation of a free account succeeds, and asking for the same document again is then refused although its result is stored |
| ValidationService.ValidateDocument | backend/services/validation_service.py:137-205 | the database changes as ValidateSpec says, and the documents and records tables do not change |
| ValidationService.RevalidateSpec | backend/services/validation_service.py:208-228 | NOT_FOUND and FORBIDDEN change nothing; for the owner the stored result is removed first, then validation runs, and the outcome is exactly ValidateSpec's on the table without that result: on success the new result is stored and the caller's row is `CountValidation` of the old one (the count advances by one when the role is 'user'), on failure the old result stays removed and the users table is unchanged; other documents' results are kept |
| ValidationService.RevalidateAtLimitDropsResult | backend/services/validation_service.py:216-228 | an account at its limit that re-validates loses the stored result and gets USAGE_LIMIT_REACHED |
| ValidationService.RevalidateDocument | backend/services/validation_service.py:208-228 | the database changes as RevalidateSpec says |
| ValidationService.GetResult | backend/services/validation_service.py:231-240 | NOT_FOUND, FORBIDDEN and NOT_VALIDATED each exactly in their case; otherwise the stored result |
| ValidationService.GetResultAfterValidate | backend/services/validation_service.py:137-240 | what a successful validation returns is what get_result reads back afterwards |
| ValidationService.HistoryEntryToDict | backend/services/validation_service.py:257-260 | a history row is the result's dict plus the document's dict under 'document' |
| ValidationService.GetValidationHistory | backend/services/validation_service.py:243-262 | exactly the results of the user's documents (with the verdict when a filter is truthy), each once, newest first, with their count |
| ValidationRoutes.OwnershipError | backend/blueprints/validation.py:22-28 | NOT_FOUND becomes 404 'Document not found', FORBIDDEN becomes 403 'Access denied', and any other tag a 400 ERROR carrying the tag as its message |
| ValidationRoutes.ValidateView | backend/blueprints/validation.py:12-31 | 200 exactly on success, with the result's dict and 'Validation complete'; a ValueError maps through OwnershipError; any other failure is 500 'Validation failed' |
| ValidationRoutes.UsageLimitReachesClientAsText | backend/blueprints/validation.py:22-28 | an account at its limit gets a plain 400 ERROR whose message is the bare tag USAGE_LIMIT_REACHED |
| ValidationRoutes.RevalidateView | backend/blueprints/validation.py:34-53 | as ValidateView, with 'Re-validation complete' and 'Re-validation failed' |
| ValidationRoutes.UnhandledError | backend/middleware/error_handler.py:72-92 | an exception a view lets escape becomes a 500 INTERNAL_ERROR envelope |
| ValidationRoutes.ResultsView | backend/blueprints/validation.py:56-71 | 200 exactly on success; NOT_VALIDATED is a 404 with its own code and message; other ValueErrors map through OwnershipError; anything else reaches the catch-all handler |
| ValidationRoutes.ResultsViewOfGetResult | backend/blueprints/validation.py:56-71 | read through the view: a missing document is 404 NOT_FOUND, another user's is 403, an unvalidated one is 404 NOT_VALIDATED, and 200 exactly for the owner's validated document |
| ValidationRoutes.HistoryPerPage | backend/blueprints/validation.py:79-80 | per_page is capped at 50 and has no lower bound |
| ValidationRoutes.HistoryView | backend/blueprints/validation.py:74-84 | always 200; the items are the history dicts of exactly the rows of the requested page, in order, with per_page capped at 50; the pagination block reports the full count, the requested page and the capped per_page (at least 1) |
| ValidationRoutes.HistoryNonPositivePerPage | backend/blueprints/validation.py:78-84 | a per_page of 0 or less is reported as 1, and the page count becomes the total |
| UploadRoutes.UploadRequestGuard | backend/blueprints/upload.py:16-21 | no file part is 400 'No file provided', an empty file name is 400 'No file selected', and the request passes exactly when a non-empty name was sent |
| UploadRoutes.UploadView | backend/blueprints/upload.py:23-34 | 201 exactly on success with 'File uploaded successfully'; a ValueError is a 400 VALIDATION_ERROR carrying its message; anything else is 500 'Upload failed' |
| UploadRoutes.ClampPage | backend/blueprints/upload.py:41 | the page is at least 1 and a valid request is kept |
| UploadRoutes.ClampPerPage | backend/blueprints/upload.py:42 | per_page lies in [1, 50] and a request in range is kept |
| UploadRoutes.ListFilesView | backend/blueprints/upload.py:37-46 | always 200; the items are the document dicts, each with its has_result flag, of exactly the clamped page of the caller's documents; the pagination block reports the full count with the clamped page and per_page |
| UploadRoutes.GetFileView | backend/blueprints/upload.py:52-68 | 200 exactly on success with the document's dict under data.document; ValueErrors map as in the validation views; anything else is 500 |
| UploadRoutes.DeleteFileView | backend/blueprints/upload.py:71-87 | 200 exactly on success, with 'Document deleted successfully' and no data; ValueErrors map as in the validation views; anything else is 500 'Delete failed' |
| UploadRoutes.OwnershipThroughViews | backend/blueprints/upload.py:52-87 | a missing document is 404 and another user's is 403, for reading and deleting alike, and deleting someone else's document changes nothing |
| AuthRoutes.BodyRequired | backend/blueprints/auth.py:16-17 | a falsy body is a 400 BAD_REQUEST |
| AuthRoutes.StringArg | backend/blueprints/auth.py:21-23 | a missing key reads as None and a string as itself; a falsy non-string reads as None; a truthy non-string makes the service's string methods raise |
| AuthRoutes.RegisterView | backend/blueprints/auth.py:12-37 | a falsy body is 400 and changes nothing; every answer is 201, 400, 409 or 500; only a 201 adds a user, exactly one, with the default 'user' role; 409 is 'Email already registered' |
| AuthRoutes.RegisterDuplicateIsConflict | backend/blueprints/auth.py:30-33 | registering an email some account already has, in any case and with surrounding spaces, is a 409 and adds no account |
| AuthRoutes.RegisterViewOutcomes | backend/blueprints/auth.py:19-37 | for any body whose fields read as strings or as absent: the service's success is a 201 carrying the session payload and the service's new users table, a duplicate email a 409, and every other refusal a 400 VALIDATION_ERROR with the service's message and no table change |
| AuthRoutes.CheckMessagesAreNotDuplicate | backend/blueprints/auth.py:32-34 | no input-check message is the duplicate-email tag, so input refusals never become a 409 |
| AuthRoutes.RegisterViewStoresUser | backend/blueprints/auth.py:19-29 | valid credentials under a free email answer 201 with the new account's session; the account is stored under the next id with the normalised email, the stripped name, the role 'user' and the given password, and no other row changes |
| AuthRoutes.RegisterInvalidIs400 | backend/blueprints/auth.py:30-34 | credentials that fail an input check answer 400 VALIDATION_ERROR with that check's message and add no account |
| AuthRoutes.SessionData | backend/blueprints/auth.py:25-28 | the session payload has exactly the keys `user` and `token`; the user reads back as its public fields, never with `password_hash`; the token is the encoding of a fresh token for that user |
| AuthRoutes.LoginView | backend/blueprints/auth.py:40-63 | a falsy body is 400; every answer is 200, 400, 401 or 500; 401 is always 'Invalid email or password' |
| AuthRoutes.LoginViewOutcomes | backend/blueprints/auth.py:47-63 | for any body whose fields read as strings or as absent: the service's success is a 200 carrying the session payload, bad credentials a 401 'Invalid email or password', and every other refusal a 400 VALIDATION_ERROR with the service's message |
| AuthRoutes.LoginViewFindsStoredUser | backend/blueprints/auth.py:47-55 | the email of a stored account, in any case and with any surrounding spaces, with its password answers 200 with that account's session |
| AuthRoutes.LoginFailuresLookAlike | backend/blueprints/auth.py:56-59 | an unknown email and a wrong password give the same 401 |
| AuthRoutes.ProfileView | backend/blueprints/auth.py:66-70 | 200 with the user's dict under data.user |
| AuthRoutes.PasswordView | backend/blueprints/auth.py:73-98 | a falsy body is 400; only a 200 changes the table, and then only the caller's password hash; a wrong current password is 401 'Current password is incorrect' |
| AuthRoutes.PasswordViewOutcomes | backend/blueprints/auth.py:81-98 | for any body whose fields read as strings or as absent: the service's success is a 200 with the updated user, stored over the caller's row; a wrong current password a 401 'Current password is incorrect'; every other refusal a 400 VALIDATION_ERROR with the service's message and no change |
| AuthRoutes.PasswordViewChanges | backend/blueprints/auth.py:81-90 | with the right current password and a new one of at least six characters the answer is 200 with the updated user; the stored row then accepts exactly the new password, and nothing else in it or in the table changes |
| AuthRoutes.PasswordWrongIs401 | backend/blueprints/auth.py:91-94 | a wrong current password answers 401 and changes nothing |
| AuthRoutes.PasswordUnknownUserIs400 | backend/blueprints/auth.py:91-95 | a user id with no row reaches the client as a 400 whose message is the bare tag NOT_FOUND |
| InstitutionRoutes.RecordFromBody | backend/blueprints/institution.py:18-32 | a falsy name or id number is the required-fields error; otherwise a record owned by the caller with the given strings and metadata defaulting to an empty object |
| InstitutionRoutes.AddRecordAsWritten | backend/blueprints/institution.py:13-38 | as written, a well-formed body still stores its record |
| InstitutionRoutes.AddRecordAsWrittenStoresAndFails | backend/blueprints/institution.py:33-38 | as written, a well-formed request stores its record and answers 500 'Failed to add record' |
| InstitutionRoutes.AddRecordView | backend/blueprints/institution.py:13-38 | as intended: 201, 400 or 500; nothing is stored unless 201; a falsy name or id number is 400; a 201 stores exactly one record owned by the caller and returns its dict |
| InstitutionRoutes.AddRecordViewIsKeywordCall | backend/blueprints/institution.py:35 | the intended response is exactly what success_response builds when message, data and status are passed by keyword |
| InstitutionRoutes.AddRecord | backend/blueprints/institution.py:13-38 | the records table becomes AddRecordView's, and the id counter moves only on a 201 |
| InstitutionRoutes.ItemRecord | backend/blueprints/institution.py:54-60 | an item builds a record exactly when it is an object with string name and id number, owned by the caller; an empty name is accepted |
| InstitutionRoutes.BuildRecords | backend/blueprints/institution.py:53-64 | all items build, one record each in order with consecutive ids, or none is stored |
| InstitutionRoutes.IdRange | backend/blueprints/institution.py:53-64 | the consecutive ids allocated to a bulk add, exactly n of them |
| InstitutionRoutes.Inserted | backend/blueprints/institution.py:64 | the committed table holds the old records and the new ones under their allocated ids |
| InstitutionRoutes.BulkOutcome | backend/blueprints/institution.py:46-64 | a successful bulk request has an object body whose truthy 'records' list builds, and stores at least one record |
| InstitutionRoutes.BulkAsWritten | backend/blueprints/institution.py:41-68 | a failed build answers its error and stores nothing; a successful one stores exactly the built records and answers 201 with no `message` and the count text under `data` |
| InstitutionRoutes.BulkAsWrittenDiffersOnlyInMessage | backend/blueprints/institution.py:65 | the handler as written and the intended one store the same records and answer the same status and, apart from a 201, the same response; on a 201 the intended message is what the written one puts under `data` |
| InstitutionRoutes.BulkAsWrittenMessageInData | backend/blueprints/institution.py:65 | as written, a successful bulk add answers 201 with its message as data and no message field |
| InstitutionRoutes.BulkView | backend/blueprints/institution.py:41-68 | as intended: 201, 400 or 500; nothing is stored unless 201; a falsy list is 400 'No records provided'; a 201 stores every item's record and says how many |
| InstitutionRoutes.BulkRecordsBelongToCaller | backend/blueprints/institution.py:53-65 | every record a bulk add stores belongs to the caller, one per item, and existing records are kept |
| InstitutionRoutes.BuiltRecordsOwned | backend/blueprints/institution.py:55-60 | each built record has the caller as its institution and its allocated id |
| InstitutionRoutes.InsertedOwned | backend/blueprints/institution.py:61-64 | committing records with fresh consecutive ids adds exactly them and keeps the rest |
| InstitutionRoutes.BulkAcceptsEmptyName | backend/blueprints/institution.py:54-65 | an item with an empty name is stored: the bulk path has no field check |
| InstitutionRoutes.BulkAddRecords | backend/blueprints/institution.py:41-68 | the records table becomes BulkView's; the loop builds one record per item and the commit stores all or none |
| InstitutionRoutes.BuildLoop | backend/blueprints/institution.py:53-62 | the loop builds exactly BuildRecords |
| InstitutionRoutes.CommitRecords | backend/blueprints/institution.py:61-64 | the commit stores the new records under their allocated ids and moves the counter by their number |
| InstitutionRoutes.InsertedConsistent | backend/blueprints/institution.py:61-64 | committing the caller's records under fresh consecutive ids keeps the schema's constraints |
| InstitutionRoutes.OwnedRecords | backend/blueprints/institution.py:79-80 | only the caller's stored records, in id order, each below the bound |
| InstitutionRoutes.OwnedRecordsHasAll | backend/blueprints/institution.py:79 | the list holds exactly the caller's ids |
| InstitutionRoutes.OwnedRecordsCount | backend/blueprints/institution.py:79-84 | its length is the number of the caller's records |
| InstitutionRoutes.OwnedRecordsAll | backend/blueprints/institution.py:79 | on a consistent database the listing covers all the caller's records |
| InstitutionRoutes.ListRecordsView | backend/blueprints/institution.py:71-88 | always 200; the items are the record dicts of exactly the clamped page of the caller's records; the pagination block reports the caller's record count with page at least 1 and per_page in [1, 100] |
| InstitutionRoutes.RecordDictsRoundTrip | backend/blueprints/institution.py:83 | each listed dict reads back as its record |
| InstitutionRoutes.ListedRecordsAreOwn | backend/blueprints/institution.py:71-88 | every listed dict reads back as one of the caller's stored records, and there are at most per_page of them |
| InstitutionRoutes.StatsView | backend/blueprints/institution.py:91-114 | 200 with the count of the caller's records and the caller's name |
| InstitutionRoutes.StatsCountsOwnRecords | backend/blueprints/institution.py:100 | on a consistent database the count is of all the caller's records and of no one else's |
| Validators.IsValidFileType | frontend/src/utils/validators.js:8-10 | a file passes exactly when its MIME type is one of application/pdf, image/jpeg, image/jpg and image/png |
| Validators.IsValidFileSize | frontend/src/utils/validators.js:17-19 | a file passes exactly when it has at most 16 777 216 bytes, which is exactly when its formatted size is not above 16 MB |
| Validators.ValidateFile | frontend/src/utils/validators.js:8-34 | a file passes exactly when its MIME type is one of the four allowed and its size is at most 16 MiB; the type is checked first, each failure with its message |
| Validators.SizeLimitInclusive | frontend/src/utils/validators.js:17-19 | a file of exactly 16 MiB passes and one byte more fails on size |
| Validators.TypeReportedFirst | frontend/src/utils/validators.js:26-32 | a file wrong in both type and size is reported for its type |
| Validators.IsValidEmailIsRegex | frontend/src/utils/validators.js:41-43 | the scan accepts exactly the strings the pattern matches: a non-empty part without '@' or whitespace, one '@', then such a part with a '.' that has at least one such character on each side |
| Validators.IsValidEmail | frontend/src/utils/validators.js:41-43 | an accepted address has at least five characters, starts and ends with a character other than whitespace and '@', and contains no JavaScript whitespace |
| Validators.EmailWithSpaceRejected | frontend/src/utils/validators.js:42 | an address with JavaScript whitespace at any position is rejected |
| Validators.EmailWithTwoAtsRejected | frontend/src/utils/validators.js:42 | an address with '@' at any two positions is rejected |
| Validators.EmailInnerDotAccepted | frontend/src/utils/validators.js:42 | a dot anywhere inside the domain suffices, even with a trailing dot |
| Validators.FormatFileSize | frontend/src/utils/validators.js:50-54 | under 1024 bytes the count in B; under 1 MiB the exact KB amount in [1, 1024); otherwise the exact MB amount, at least 1 (the page's own formatter at frontend/src/pages/Upload/Upload.jsx:85-89 is the same) |
| Validators.FormatFileSizeUnitMonotone | frontend/src/utils/validators.js:50-54 | a larger size never shows in a smaller unit |
| UseApi.EnvelopeOr | frontend/src/pages/Upload/Upload.jsx:79 | the server's error message when it is non-empty, else the page's fallback; never empty when the fallback is not |
| UseApi.FailureMessage | frontend/src/hooks/useApi.js:15 | the server's error message, else the error's own message, else 'Something went wrong'; never empty |
| UseApi.BareFailureReadsFallback | frontend/src/hooks/useApi.js:15 | a failure without envelope or message reads as the fallback |
| UseApi.EnvelopeTakesPrecedence | frontend/src/hooks/useApi.js:15 | with a server message, the hook and the pages show that same message |
| UseApi.ApiState.Begin | frontend/src/hooks/useApi.js:9-10 | a request starts loading and clears the error |
| UseApi.ApiState.Settle | frontend/src/hooks/useApi.js:11-20 | loading ends; an answer is returned and keeps the error; a failure sets the error to FailureMessage and returns nothing |
| UseApi.ApiState.Call | frontend/src/hooks/useApi.js:8-21 | the request is the given verb, url and data; loading ends; the body comes back exactly on an answer with no error, and a failure leaves its message |
| UseApi.ApiState.Get | frontend/src/hooks/useApi.js:23 | a GET with no data, settled as Call |
| UseApi.ApiState.Post | frontend/src/hooks/useApi.js:24 | a POST with the data, settled as Call |
| UseApi.ApiState.Del | frontend/src/hooks/useApi.js:25 | a DELETE with no data, settled as Call |
| AuthContext.AuthProvider.constructor | frontend/src/context/AuthContext.jsx:7-10 | the token starts as the stored one, with no user, loading |
| AuthContext.AuthProvider.Mount | frontend/src/context/AuthContext.jsx:12-18 | the profile is fetched exactly when a token was stored; otherwise loading simply ends |
| AuthContext.AuthProvider.FetchProfile | frontend/src/context/AuthContext.jsx:20-32 | loading ends; a profile sets the user; a failure clears storage, token and user together |
| AuthContext.AuthProvider.StartSession | frontend/src/context/AuthContext.jsx:36-40 | a session stores and sets the token and sets the user, returning it; a rejection changes nothing |
| AuthContext.AuthProvider.Login | frontend/src/context/AuthContext.jsx:34-41 | posts email and password to /auth/login, then StartSession |
| AuthContext.AuthProvider.Register | frontend/src/context/AuthContext.jsx:43-50 | posts email, password and name to /auth/register, then StartSession |
| AuthContext.AuthProvider.Logout | frontend/src/context/AuthContext.jsx:52-56 | storage, token and user are cleared, so the visitor is no longer authenticated |
| AuthContext.RouteDecision | frontend/src/components/ProtectedRoute.jsx:4-22 | loading shows the indicator; otherwise a visitor is redirected to /login with replace, and a signed-in user sees the page |
| Json.TruthinessDiffers | frontend/src/context/AuthContext.jsx:59 | JavaScript and Python truthiness of a JSON value differ exactly on an empty array and an empty object, which JavaScript counts as truthy |
| AuthContext.GuardAfterMount | frontend/src/components/ProtectedRoute.jsx:18-22 | after mounting, the page is shown exactly when the user is truthy in JavaScript's sense, whatever the role: also for an empty object or array; a null user is redirected to the login page |
| AuthContext.RoleOf | frontend/src/pages/Dashboard/Dashboard.jsx:10 | the role is present exactly for a user object with a role key |
| AuthContext.DashboardFor | frontend/src/pages/Dashboard/Dashboard.jsx:10-19 | admin and institution roles get their dashboards; every other case, no user included, the user dashboard |
| AuthContext.DashboardDependsOnRoleOnly | frontend/src/pages/Dashboard/Dashboard.jsx:10-19 | users with the same role get the same dashboard, and no user gets the user dashboard |
| UploadPage.Percent | frontend/src/pages/Upload/Upload.jsx:66 | the whole percentage nearest the exact one, a half rounding up, in [0, 100] |
| UploadPage.PercentBounds | frontend/src/pages/Upload/Upload.jsx:66 | the integer bounds of the rounding read as the real-number bounds |
| UploadPage.PercentEnds | frontend/src/pages/Upload/Upload.jsx:65-68 | the first and last progress events read 0 and 100 |
| UploadPage.UploadPage.constructor | frontend/src/pages/Upload/Upload.jsx:6-11 | no file, no flags, progress 0, no error |
| UploadPage.UploadPage.Drag | frontend/src/pages/Upload/Upload.jsx:30-35 | enter and over light the drop zone, leave dims it, other events leave it |
| UploadPage.UploadPage.FileInput | frontend/src/pages/Upload/Upload.jsx:46-50 | the error is cleared; a file that passes becomes the chosen one; a failing one keeps the old choice and shows why |
| UploadPage.UploadPage.Drop | frontend/src/pages/Upload/Upload.jsx:37-44 | the drop zone dims, then the file is handled as FileInput |
| UploadPage.UploadPage.RemoveFile | frontend/src/pages/Upload/Upload.jsx:126-139 | the shown 'Remove file' button drops the chosen file, which disables the submit button |
| UploadPage.UploadPage.StartSubmit | frontend/src/pages/Upload/Upload.jsx:52-56 | nothing happens without a file; otherwise the error is cleared, upload starts and progress resets |
| UploadPage.UploadPage.Progress | frontend/src/pages/Upload/Upload.jsx:65-68 | the progress becomes Percent of the event |
| UploadPage.UploadPage.UploadSettled | frontend/src/pages/Upload/Upload.jsx:71-82 | a document id switches from uploading to validating; a rejection shows a non-empty message and clears both flags |
| UploadPage.UploadPage.ValidateUrl | frontend/src/pages/Upload/Upload.jsx:76 | the validate request goes to /validate/ and the kept id |
| UploadPage.UploadPage.ValidateSettled | frontend/src/pages/Upload/Upload.jsx:76-82 | success goes to the document's result page and leaves the upload flag and the error as they were, with the validating flag still set; a rejection shows its message, clears both flags and does not navigate |
| UploadPage.PageCheckAcceptsExactly | frontend/src/pages/Upload/Upload.jsx:15-28 | the page's own check accepts exactly the four types up to 16 MiB, as the shared validator does |
| HistoryPage.HistoryUrl | frontend/src/pages/History/History.jsx:22 | the request for a page asks /history with that page and 10 per page |
| HistoryPage.HistoryUrlInjective | frontend/src/pages/History/History.jsx:22 | different pages are asked for with different requests |
| HistoryPage.HasVerdict | frontend/src/pages/History/History.jsx:35 | a row passes only when it is an object whose verdict is that string; a missing or null verdict never passes |
| HistoryPage.FilteredResults | frontend/src/pages/History/History.jsx:33-35 | ALL shows every row; another filter keeps exactly the rows with that verdict |
| HistoryPage.FilteredResultsKeepOrder | frontend/src/pages/History/History.jsx:33-35 | filtering keeps the rows' order |
| HistoryPage.VerdictFiltersDisjoint | frontend/src/pages/History/History.jsx:33-35 | a row shown under AUTHENTIC is shown under neither SUSPICIOUS nor FAKE |
| HistoryPage.VerdictBadge | frontend/src/pages/History/History.jsx:37-44 | each verdict has its style, and anything else the plain badge |
| HistoryPage.VerdictBadgesDistinct | frontend/src/pages/History/History.jsx:37-44 | different verdicts never share a style |
| HistoryPage.PrevPage | frontend/src/pages/History/History.jsx:168 | one page back, never below 1 |
| HistoryPage.NextPage | frontend/src/pages/History/History.jsx:192 | one page on, never past the last |
| HistoryPage.PageButtons | frontend/src/pages/History/History.jsx:175-180 | buttons 1 to min(pages, 5), none for a non-positive count |
| HistoryPage.ControlsStayInRange | frontend/src/pages/History/History.jsx:165-193 | on a page in range, every control leads to a page in range |
| HistoryPage.HistoryPage.constructor | frontend/src/pages/History/History.jsx:7-17 | the first render requests page 1 |
| HistoryPage.HistoryPage.SetPage | frontend/src/pages/History/History.jsx:15-17 | the effect requests a page only when the page really changes |
| HistoryPage.HistoryPage.ClickPrev | frontend/src/pages/History/History.jsx:168 | moves to PrevPage; when the page changes, that page's URL is requested and loading is on; when it does not (page 1), the requests and loading are unchanged |
| HistoryPage.HistoryPage.ClickNext | frontend/src/pages/History/History.jsx:192-193 | moves to NextPage; when the page changes, that page's URL is requested and loading is on; when it does not (the last page), the requests and loading are unchanged |
| HistoryPage.HistoryPage.ClickPageButton | frontend/src/pages/History/History.jsx:180 | moves to the button's page; a different page is requested and loading is on; the current page's button sends no request and leaves loading |
| HistoryPage.HistoryPage.SetFilter | frontend/src/pages/History/History.jsx:76 | a filter tab changes the filter and sends no request |
| HistoryPage.HistoryPage.FetchSettled | frontend/src/pages/History/History.jsx:19-31 | loading ends; rows and totals are taken on success and kept on failure |
| InstitutionRecordsPage.Matches | frontend/src/pages/Institution/InstitutionRecords.jsx:66-67 | a search equal to the name or the id number up to case matches; a matching search is no longer than the name or the id number |
| InstitutionRecordsPage.FilteredRecords | frontend/src/pages/Institution/InstitutionRecords.jsx:65-68 | exactly the records whose lower-cased name or id number contains the lower-cased search |
| InstitutionRecordsPage.EmptySearchKeepsAll | frontend/src/pages/Institution/InstitutionRecords.jsx:65-68 | an empty search shows every record, in order |
| InstitutionRecordsPage.SearchIgnoresCase | frontend/src/pages/Institution/InstitutionRecords.jsx:66-67 | searching the lower-cased text gives the same list |
| InstitutionRecordsPage.FilteredRecordsKeepOrder | frontend/src/pages/Institution/InstitutionRecords.jsx:65-68 | the search keeps the records' order |
| InstitutionRecordsPage.RecordsPage.constructor | frontend/src/pages/Institution/InstitutionRecords.jsx:19-25 | no records, loading, empty search and form, no request yet |
| InstitutionRecordsPage.RecordsPage.FetchRecords | frontend/src/pages/Institution/InstitutionRecords.jsx:31-40 | loading ends; the records are replaced on success; a failure keeps them and shows the server message or 'Failed to load records' |
| InstitutionRecordsPage.RecordsPage.AddRecord | frontend/src/pages/Institution/InstitutionRecords.jsx:42-52 | posts the form; on success the list is fetched again, the modal closes and the form empties; on failure they stay and the error shows |
| InstitutionRecordsPage.RecordsPage.BulkUpload | frontend/src/pages/Institution/InstitutionRecords.jsx:54-63 | a request goes out exactly when the text parses; a parse failure and a rejection both show the same message; the text clears only on success |
| RegisterPage.Redirect | frontend/src/pages/Register/Register.jsx:17-19 | a signed-in visitor goes to /dashboard, and only a signed-in one (the administrator page repeats the same redirect) |
| RegisterPage.PasswordCheck | frontend/src/pages/Register/Register.jsx:25-32 | passes exactly when the passwords agree and have at least 6 characters; a mismatch is reported first |
| RegisterPage.MismatchReportedFirst | frontend/src/pages/Register/Register.jsx:25-32 | a short password that is also mistyped is reported as mistyped |
| RegisterPage.RegisterForm.Submit | frontend/src/pages/Register/Register.jsx:21-43 | a failed check shows its message and sends nothing; otherwise the context registers, success goes to /dashboard and a rejection shows the server message or 'Registration failed'; the context's own loading flag is left as it was |
| AdminRegisterPage.AdminRegisterForm.Submit | frontend/src/pages/AdminRegister/AdminRegister.jsx:21-43 | the same checks; past them the missing registerAdmin always ends in 'Admin registration failed', and the page never moves on |

## Left out

- The Gemini extraction, the random mock CNN score and the Gemini key lookup are foreign or random. The CNN score, the OCR confidence and the extracted fields are inputs (`ValidationService.Pipeline`). Stripping code fences from Gemini's reply is not modelled.
- `round(…, 4)` on the match and final scores, `toFixed(1)` in the size formatter, and `toLocaleDateString` are left out. Scores are exact reals. `Validators.FormatFileSize` states the exact amount and the unit, not the one-decimal text.
- SQLAlchemy is left out: sessions, queries and commits are map updates. `paginate(error_out=False)` is `Store.OrmPage`, which follows Flask-SQLAlchemy 3's fallbacks. Timestamps are natural numbers, and `isoformat` is a JSON time node.
- Werkzeug hashing is abstract, an injective `Hashed(secret)`. JWT encoding and decoding are function parameters. `secure_filename` is a function parameter, and `uuid4().hex` is a hex-string parameter.
- File-system I/O is left out: `file.save`, `os.path.getsize` (the size is the stream's length), `delete_file`, `ensure_upload_dir`. Deleting a document does not depend on the physical file.
- Logging, the Flask app factory, CORS, the rate limiter, `config.py`, the admin statistics blueprint and the PDF report service are left out. The only error handler modelled is the catch-all one.
- The institution blueprint imports `institution_required` from backend/middleware/auth_middleware.py (backend/blueprints/institution.py:4), and the admin-statistics blueprint imports `admin_required` from it (backend/blueprints/admin_stats.py:4). That module defines only `token_required`, so, as written, importing either blueprint raises ImportError and `create_app` fails at backend/app.py:56 before any request is served. The institution views are modelled as if the import succeeded and the missing decorator let every authenticated caller through: they take the caller's id as given, and no role check is modelled.
- Flask's own answer to a body that is not JSON is left out. A body that parses to something other than an object is handled as the code does:
  - in the institution views, `data.get` is called outside their `try` (backend/blueprints/institution.py:19-21 and :47), so the error reaches the catch-all handler;
  - the auth views test `if not data` first (backend/blueprints/auth.py:16, :44, :78), so a falsy body (`[]`, `0`, `""`) is the 400 'Request body is required';
  - in the auth views a truthy non-object fails at `data.get` inside the view's own `try`, giving that view's 500: 'Registration failed', 'Login failed' or 'Password change failed'.
- Case folding is ASCII-only here. Python's `strip` removes the whitespace of the Latin-1 range (`Strings.IsPySpace`: the ASCII spaces and controls, U+001C to U+001F, U+0085 and U+00A0); JavaScript's whitespace is the set in `Validators.IsJsSpace`; other Unicode spaces are left out. JavaScript string lengths count characters, not UTF-16 code units.
- Asynchrony is left out: each handler settles in one step, with its awaited replies as parameters. Races and unmount cancellation are not modelled. This includes a logout during a profile fetch and a stale history reply.
- The front end's replies are abstracted:
  - the upload reply to the new document id;
  - the history reply to rows, total and pages;
  - the records reply to the records;
  - `JSON.parse` to a parameter.
- Presentational React is left out: Landing, Results, the two dashboards' contents, Login, Navbar, Footer, Layout, spinners, alerts, FileUpload and the routing table.
- ResponseUtils.CallSuccessResponse: the values bound to the parameters are taken as JSON values. A call whose arguments have other Python types is not modelled.
- AuthRoutes.StringArg: a truthy non-string argument is reported as raising. What the service would do with such a value is not modelled. InstitutionRoutes.RecordFromBody is stated the same way.
- InstitutionRoutes.ItemRecord: a bulk item whose name or id number is not a string builds no record. What the database would store for such a value is not modelled.
- ValidationService.VerifyAgainstInstitutionData: the extracted fields are strings or absent. A numeric id number, which the source turns into its text with `str` (so 12345 finds the record "12345"), is not modelled, and neither is a truthy non-string name or institution, on which `.strip()` raises and the validation fails with an internal error.
- AuthMiddleware.DecodeClaims: only the expiry is checked. The JWT library's rejection of an `iat` in the future ("Token is invalid") is not modelled, and neither is a valid token without `user_id`, whose lookup raises and reaches the catch-all 500.
- InstitutionRoutes.ListRecordsView: the records are listed in id order. The query has no `order_by`, so the database's own order is not modelled.
- UploadPage.UploadPage.Progress: requires a computable total greater than 0 and at most that many bytes loaded. The browser's other progress events are not modelled.
- HistoryPage.VerdictBadge: a verdict that names an inherited object property, such as "constructor", is treated as unknown. JavaScript would return the inherited value.
- ValidationService.GetValidationHistory: returns the full ordered list with its total. The history view cuts the page (`ValidationRoutes.HistoryView`). The service's verdict filter is modelled, although the view never passes one.
- Where the behaviour and its design description differ, the model follows the code:
  - the history page filters verdicts in the browser and never refetches for a filter;
  - the route guard consults no role;
  - the auth context offers no `registerAdmin`, so the administrator sign-up page always fails without sending a request.
- The `User` model declares no `is_paid` or `validation_count` column, although the usage check reads both. The model gives `User` both fields (`isPaid`, `validationCount`). The first finding below records what the code as written does.

## Findings

| source | as written | input that shows it | evidently intended | confidence | as-written member | corrected member |
|---|---|---|---|---|---|---|
| backend/services/validation_service.py:146-147 | reads `user.is_paid` and `user.validation_count`, which the `User` model (backend/models/user.py:10-15) does not declare | any validation by an account with the default role 'user': the attribute read raises, and the view answers 500 'Validation failed' | a free account is refused after ten validations, and every other account passes | not executed | ValidationService.UsageCheckAsWrittenRaises | ValidationService.UsageCheckWithColumns |
| backend/blueprints/institution.py:35 | `success_response('Record added successfully', data=…, status_code=201)` binds `data` twice and raises TypeError after the commit | a body with a non-empty name and id number: the record is stored and the answer is 500 'Failed to add record' | 201 with the message and the new record | not executed | InstitutionRoutes.AddRecordAsWrittenStoresAndFails | InstitutionRoutes.AddRecordViewIsKeywordCall |
| backend/blueprints/institution.py:65 | `success_response(f'{n} records added successfully', status_code=201)` passes the message as `data` | any successful bulk add, e.g. one record: the envelope has `data` "1 records added successfully" and no `message` | 201 with the count as the message | not executed | InstitutionRoutes.BulkAsWrittenMessageInData | InstitutionRoutes.BulkView |

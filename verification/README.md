# Facial-recognition access control (pyme-backend), modelled in Dafny

The system is a small access-control backend. It has these parts:

- **Employees.** They belong to an area. Each has a DNI, an e-mail, an optional PIN and an optional face template. The template is the JSON text of a face vector, stored in `DatosBiometricos`.
- **Facial access.** A request carries a picture and a target area. The first face found in it is compared against every stored template by Euclidean distance. The closest template under 0.6 wins, and a tie goes to the first candidate. The winner is admitted only to its own area, with confidence `1 - distance`.
- **PIN access.** The request admits the first employee holding that PIN in that area, provided the employee is `Activo`.
- **What is recorded.** Only permitted attempts are recorded. A denial writes nothing.
- **The access listing.** It is filtered by truthy query arguments, joined to the employee, and ordered newest first. It is paginated by `page`/`page_size`.
- **Employee maintenance.** Creation rejects a duplicate DNI or e-mail (400) before it checks the area (404). Face registration stores a template. Deletion cascades to the employee's accesses.
- **Vector encryption.** An AES-GCM envelope for face vectors. It has key loading, encryption, and a lenient decryption that accepts several stored encodings of the IV and the ciphertext.
- **Legacy handlers.** main.py holds an older set of handlers with raw SQL against a schema with separate entry and exit timestamps. They repeat the same decisions. One difference: a picture without a face is a 400 there.

The database is a `Store` of sequences in insertion order, with autoincrement counters. `Repositories.Valid` holds these invariants:

- keys ascend;
- DNI and e-mail are unique;
- every access points to an existing employee and area.

The legacy handlers work on a `LegacyApi.LegacyStore`. Its invariant `LegacyApi.LegacyKeysAscending` says that access keys ascend in table order and stay below the next serial value. The legacy listing's `ORDER BY "AccesoID" DESC` is modelled as reversing the table, and this invariant is what makes the two agree.

Library code the backend calls becomes function-valued parameters: face detection, vector distance, JSON, base64, UTF-8 and AES-GCM. Their laws are ghost predicates, and the lemmas that need a law require it:

- `Primitives.LawfulCodecs`: UTF-8 and base64 decoding invert encoding, and base64 output is padded text in the standard alphabet;
- `Primitives.JsonReadsBack`: `json.loads` inverts `json.dumps` on one given vector (a law per vector, because no single function from all real sequences to strings is injective);
- `Primitives.LawfulAead`: opening inverts sealing and rejects forgeries;
- `FaceRecognition.DistanceLaws`: a distance is non-negative and zero on equal vectors.

Clocks (`datetime.now`) and randomness (`os.urandom`) are parameters too.

Modules, following the repository's layout:

| module | file | models |
|---|---|---|
| `Common` | common.dfy | `Option`/`Result`, Python truthiness, filtering, `ORDER BY ... DESC` as reversal, `OFFSET`/`LIMIT` as a window |
| `Schema` | schema.dfy | the ORM entities and enums of models/database.py and models/enums.py |
| `Primitives` | primitives.dfy | Python values, the codecs, AES-GCM and their laws |
| `FaceRecognition` | face_recognition.dfy | services/face_recognition_service.py |
| `VectorEncryption` | vector_encryption.dfy | utils/crypto_utils.py |
| `Repositories` | repositories.dfy | database/repositories.py |
| `EmpleadoService` | empleado_service.dfy | services/empleado_service.py |
| `AccesoService` | acceso_service.dfy | services/acceso_service.py |
| `AccesosApi` | accesos_api.dfy | api/accesos.py |
| `LegacyApi` | legacy.dfy | the access and registration handlers of main.py |

## Model

| member | source | states |
|---|---|---|
| Common.Window | database/repositories.py:91 | `OFFSET o LIMIT l` keeps at most `l` rows, exactly `min(l, n - o)` when `o < n` and none otherwise, and row `i` of the result is row `o + i` of the ordered input |
| Common.WindowsTile | api/accesos.py:34-42 | reading `l1` rows and then `l2` more from where they stopped gives the same rows as reading `l1 + l2` at once |
| Primitives.AsVector | utils/crypto_utils.py:134-137 | (definition) a value is a vector exactly when it is a list whose every element is an `int` or `float` (a `bool` included), and the vector keeps its length and values |
| Primitives.VectorValueIsVector | main.py:178-179 | the list `json.dumps` writes for a face vector reads back as that same vector |
| Primitives.Latin1Encode | utils/crypto_utils.py:86 | Latin-1 encoding succeeds exactly when every character is below U+0100, and byte `i` is the code of character `i` |
| Primitives.UrlsafeToStandard | utils/crypto_utils.py:30 | (definition) the url-safe decoder maps `-` to `+` and `_` to `/`, leaving every other character and the length unchanged |
| Primitives.StandardTextIsUrlsafeFixpoint | utils/crypto_utils.py:30 | a key in the standard base64 alphabet decodes the same through the url-safe decoder |
| FaceRecognition.ExtractFaceEncoding | services/face_recognition_service.py:10-16 | fails with "no face" exactly when the detector finds none, and otherwise returns the first encoding |
| FaceRecognition.Profile | services/face_recognition_service.py:24-26 | (definition) one distance per stored candidate, in candidate order |
| FaceRecognition.Scan | services/face_recognition_service.py:21-29 | the loop's final state: a winner is a position of the list and the bound is that position's distance |
| FaceRecognition.ScanSpec | services/face_recognition_service.py:21-29 | the running minimum that starts at the threshold and replaces on strict `<` never rises above the threshold; there is no winner exactly when no distance is below the threshold, and otherwise the winner is the first position of the minimum, below the threshold |
| FaceRecognition.ScanStep | services/face_recognition_service.py:24-29 | one iteration: the next candidate becomes the best exactly when its distance is strictly below the running bound |
| FaceRecognition.FirstMinimumUnique | services/face_recognition_service.py:27-29 | at most one position is the first minimum, so the winner is well defined |
| FaceRecognition.ScanFindsFirstMinimum | services/face_recognition_service.py:27-29 | whenever the first minimum lies below the threshold, the scan returns exactly it, with its distance as the bound |
| FaceRecognition.CompareFaces | services/face_recognition_service.py:18-33 | an error exactly when some stored template does not read as a vector; no match exactly when every distance is at least the threshold; otherwise the candidate at the first minimum, with confidence `1 - distance` |
| FaceRecognition.CompareFacesFromScan | services/face_recognition_service.py:31-33 | once every template reads, the answer is read off the loop's final state: no match when there is no winner, otherwise the winner with confidence `1 - bound` |
| FaceRecognition.CompareFacesLoop | services/face_recognition_service.py:18-33 | the imperative loop over the candidates returns what the functional definition specifies |
| FaceRecognition.EmptyCandidatesNoMatch | services/face_recognition_service.py:31-33 | with no stored templates the answer is no match |
| FaceRecognition.ThresholdIsStrict | services/face_recognition_service.py:22-27 | a single candidate at distance exactly the threshold is not matched, and one below it is matched with confidence `1 - distance` |
| FaceRecognition.ConfidenceBounds | services/face_recognition_service.py:32 | a reported confidence lies in `(1 - threshold, 1]` |
| FaceRecognition.IdenticalProbeFullConfidence | services/face_recognition_service.py:22-32 | a probe equal to the stored template at position `k` is matched at or before `k` with confidence 1.0 |
| FaceRecognition.MatchReadsOnlyTemplates | services/face_recognition_service.py:24-29 | two candidate lists with the same templates give the same outcome, winner position and confidence |
| FaceRecognition.Recognize | services/acceso_service.py:102-108 | no face in the picture is the "no face" error; otherwise the comparison of the first encoding |
| VectorEncryption.NewCipher | utils/crypto_utils.py:24-38 | "key not set" exactly when neither the argument nor the environment is truthy; success exactly when the chosen key decodes url-safe to 16, 24 or 32 bytes, which become the cipher key |
| VectorEncryption.GeneratedKeyAccepted | utils/crypto_utils.py:146-152 | under the UTF-8 and base64 laws alone, a generated key is 44 characters that the constructor accepts, yielding the 32 drawn bytes as the key |
| VectorEncryption.EncryptVector | utils/crypto_utils.py:51-61 | the returned IV is the fresh nonce, and under a lawful AEAD the ciphertext opens to the JSON of the vector |
| VectorEncryption.ParsePayload | utils/crypto_utils.py:117-131 | when the text is JSON, the result is that JSON value, accepted exactly when it is a list; otherwise the result is the `literal_eval` value, accepted exactly when that evaluates to a list |
| VectorEncryption.DecryptVector | utils/crypto_utils.py:67-144 | every failure is "failed to decrypt"; a result means the normalised IV and ciphertext authenticated and the payload parsed as a list of numbers equal to the result; conversely, a payload that authenticates, parses (by JSON or by the `literal_eval` fallback) as a list and holds only numbers is returned |
| VectorEncryption.EncryptThenDecrypt | utils/crypto_utils.py:169-174 | what `encrypt_vector` returns decrypts to the same vector, whenever JSON reads that vector back |
| VectorEncryption.Base64TextIsNotBytesLiteral | utils/crypto_utils.py:83-90 | base64 text never takes the `b'...'` branch of the IV normalisation |
| VectorEncryption.Base64StoredRoundTrip | scripts/seed_data.py:210-214 | ciphertext and IV stored as base64 text, as the seeder writes them, decrypt to the original vector, whenever JSON reads that vector back |
| VectorEncryption.BytesLiteralRoundTrip | utils/crypto_utils.py:84-86 | the `b'...'` form wrapping the Latin-1 text of any bytes normalises back to those bytes |
| VectorEncryption.WideBytesLiteralRejected | utils/crypto_utils.py:84-86 | a `b'...'` IV holding a character above U+00FF makes decryption fail rather than pass on garbage |
| VectorEncryption.ForgedCiphertextRejected | utils/crypto_utils.py:106 | a ciphertext that is not the sealing of any plaintext under this key and IV is rejected |
| VectorEncryption.NonVectorPayloadRejected | utils/crypto_utils.py:119-135 | an authenticated payload that is JSON but not a list of numbers is rejected |
| Repositories.IndexOfId | database/repositories.py:9-10 | the position of the first row with the id, and none exactly when no row has it |
| Repositories.GetById | database/repositories.py:9-10 | none exactly when no employee has the id, otherwise a stored employee with that id |
| Repositories.GetByIdUnique | database/repositories.py:9-10 | with ascending keys, looking up a stored employee's id returns that employee |
| Repositories.GetByDniOrEmail | database/repositories.py:15-18 | none exactly when no employee shares the DNI or the e-mail, otherwise a stored employee sharing one of them |
| Repositories.GetByPinAndArea | database/repositories.py:20-24 | none exactly when no employee has both the PIN and the area, otherwise a stored employee with both |
| Repositories.GetWithBiometricData | database/repositories.py:26-29 | exactly the employees with a non-NULL template, whatever their state |
| Repositories.CreateEmpleado | database/repositories.py:31-36 | the new row gets the next key and is appended, and nothing else changes |
| Repositories.UpdateBiometricData | database/repositories.py:38-44 | true exactly when the employee exists; then only that row's template changes, otherwise nothing does |
| Repositories.DeleteEmpleado | database/repositories.py:46-52 | true exactly when the employee exists; then exactly its row is removed, otherwise nothing changes (the foreign-key failure when accesses still reference it is left out) |
| Repositories.DeleteRemovesExactlyThatEmpleado | database/repositories.py:46-52 | with unique keys, no row with the id remains and every other employee is kept |
| Repositories.CreateAcceso | database/repositories.py:116-121 | the access gets the next key and is appended, and nothing else changes |
| Repositories.DeleteByEmpleadoId | database/repositories.py:123-125 | exactly the accesses of other employees remain |
| Repositories.FilterKeepsAccesoOrder | database/repositories.py:123-125 | deleting accesses keeps the remaining keys ascending and below the counter |
| Repositories.FalsyFiltersIgnored | database/repositories.py:80-89 | with every filter argument falsy, every access passes the filter |
| Repositories.KeptAccesos | database/repositories.py:76-89 | exactly the accesses that join an employee and pass the filters |
| Repositories.Selected | database/repositories.py:76-111 | one row per kept access, in table order, each carrying its employee's name, surname, DNI and role |
| Repositories.GetAllWithEmployeeInfo | database/repositories.py:74-114 | at most `limit` rows, exactly as many as the window holds, each a stored access that passes the filters and agrees with its employee |
| Common.NewestWindow | database/repositories.py:91 | the first `l` rows of the descending order are the newest: each row left out has a smaller key than each row taken |
| Common.WindowOfReverseDecreasing | database/repositories.py:91 | a window of the descending order of a key-ascending sequence is strictly descending in that key |
| Repositories.ListingIsNewestFirst | database/repositories.py:91 | with ascending keys, the rows come in strictly descending `AccesoID` |
| Repositories.ListingCoversSelection | database/repositories.py:91 | a selected row `k` inside the window is served at position `k - offset`, counted from the newest |
| EmpleadoService.GetEmpleado | services/empleado_service.py:29-45 | 404 exactly when the employee does not exist, otherwise the public view of the stored employee |
| EmpleadoService.GetEmpleadoCompleto | services/empleado_service.py:47-65 | 404 exactly when the employee does not exist, otherwise the stored PIN and template included |
| EmpleadoService.LookupsAgree | services/empleado_service.py:29-65 | the public and the complete lookup fail together and agree on every shared field |
| EmpleadoService.CreateEmpleado | services/empleado_service.py:67-114 | a duplicate DNI or e-mail is a 400 and an unknown area a 404, both writing nothing; otherwise exactly one row is appended, carrying the submitted fields, the next key, no template and the creation time |
| EmpleadoService.DuplicateCheckedBeforeArea | services/empleado_service.py:69-78 | a duplicate is reported as 400 even when the area is also unknown |
| EmpleadoService.CreatePreservesValid | services/empleado_service.py:67-97 | creation keeps keys ascending, DNI and e-mail unique and references resolving |
| EmpleadoService.RegisterFace | services/empleado_service.py:116-126 | 404 exactly when the employee does not exist, writing nothing; otherwise only that employee's template changes |
| EmpleadoService.SameKeysKeepValid | services/empleado_service.py:116-126 | rewriting employee rows without touching key, DNI, Email or area keeps the store's invariants |
| EmpleadoService.RegisterFacePreservesValid | services/empleado_service.py:116-126 | registering a face keeps the store's invariants |
| EmpleadoService.DeleteEmpleado | services/empleado_service.py:128-159 | 404 exactly when the employee does not exist, writing nothing; otherwise its accesses are deleted and then the employee, and the answer is the public view of the deleted row |
| EmpleadoService.DeleteCascades | services/empleado_service.py:134-141 | after deletion no employee or access with the id remains, and every other employee and access is kept |
| EmpleadoService.DeletePreservesValid | services/empleado_service.py:134-141 | after deletion the invariants hold: keys ascending, DNI and e-mail unique, and no access left pointing at the removed employee |
| AccesoService.TotalPages | services/acceso_service.py:61 | 1 for a non-positive page size; otherwise zero pages exactly when there are no rows |
| AccesoService.TotalPagesIsCeiling | services/acceso_service.py:61 | for a positive page size, the page count is the ceiling of `total / page_size`: enough pages to cover every row, and one fewer would not be |
| AccesoService.CurrentPage | services/acceso_service.py:64 | the requested page clamped into `1 .. total_pages`, and 1 when there are no pages |
| AccesoService.Paginate | services/acceso_service.py:66-73 | the metadata carries the total, the clamped page and the page count, with `has_previous`/`has_next` as the clamped page's neighbours |
| AccesoService.HasNextIffRowsRemain | services/acceso_service.py:72 | `has_next` holds exactly when rows remain after the reported page |
| AccesoService.ReportedPageIsOccupied | services/acceso_service.py:64 | when there are rows, the reported page starts before the last one |
| AccesoService.PastTheEndExample | services/acceso_service.py:61-73 | 25 rows with page 10 of size 10 report page 3 of 3, with a previous and no next page |
| AccesoService.ParseDate | services/acceso_service.py:36-47 | a missing or unparseable date becomes no bound, and a bound is always the parse of the given text |
| AccesoService.UnpackPair | services/acceso_service.py:50 | (definition) two-name unpacking succeeds exactly on a two-element list, binding its elements in order |
| AccesoService.GetAllAccesosAsWritten | services/acceso_service.py:50-73 | as written, every call with a positive page size ends in the unhandled 500; with a non-positive page size it returns exactly when the window holds two rows, binding the first as the items and the second as the total, on page 1 of 1 |
| AccesoService.GetAllAccesos | services/acceso_service.py:15-78 | the total is the number of matching rows and the metadata is computed from it; the items are the `OFFSET offset LIMIT limit` window of the matching rows, newest first, each a stored access that passes the filters |
| AccesoService.ListingCounterexample | services/acceso_service.py:50-58 | on a store with one access and no filters, the code as written answers 500 while the corrected listing returns that access on page 1 of 1 |
| AccesoService.UnparseableDateIgnored | services/acceso_service.py:37-47 | unparseable date arguments give the same listing as absent ones |
| AccesoService.InternalError | services/acceso_service.py:152-153 | an unexpected error becomes a 500 whose detail starts with "Error interno del servidor: " |
| AccesoService.CreateFacialAccess | services/acceso_service.py:97-153 | a 500 exactly when recognition fails (no face or an unreadable template); no match and another area are the two 403s; a match in the requested area is granted; a denial writes nothing; a grant appends exactly one permitted facial access for the matched employee, with its confidence and the time |
| AccesoService.CreatePinAccess | services/acceso_service.py:155-207 | "PIN incorrecto" exactly when no employee has that PIN in that area; a grant exactly when the first such employee is `Activo`, appending one permitted PIN access with confidence 1.0; a denial writes nothing |
| AccesoService.RecordingGrantPreservesValid | services/acceso_service.py:120-134 | recording an access of a stored employee to its own area keeps the invariants |
| AccesoService.FacialAccessPreservesValid | services/acceso_service.py:97-153 | a facial attempt keeps the store's invariants |
| AccesoService.PinAccessPreservesValid | services/acceso_service.py:155-207 | a PIN attempt keeps the store's invariants |
| AccesoService.RecognizeIgnoresState | services/face_recognition_service.py:18-33 | the matcher's outcome does not depend on the candidates' employment state |
| AccesoService.FacialIgnoresEmployeeState | services/acceso_service.py:97-134 | the facial route admits inactive employees: changing employment states changes neither the answer nor the recorded accesses |
| AccesoService.PinGrantRequiresActiveHolder | services/acceso_service.py:159-173 | a PIN grant names a stored, active employee with that PIN in that area |
| AccesoService.OnlyGrantsAreRecorded | services/acceso_service.py:110-134 | on both routes an attempt adds one access exactly when granted, and that access is marked permitted |
| AccesosApi.PageSlice | api/accesos.py:16-42 | the parameters are accepted exactly when `page >= 1` and `1 <= page_size <= 100`, otherwise 422; `limit` is the page size and `offset` the rows of the earlier pages |
| AccesosApi.PageOffsetIsMultiple | api/accesos.py:34 | the offset is a multiple of the page size, skipping exactly `page - 1` pages |
| AccesosApi.ObtenerAccesosAsWritten | api/accesos.py:9-45 | as written, the endpoint never lists: 422 exactly for invalid parameters, and since validation forces a positive page size, the unhandled 500 otherwise |
| AccesosApi.ObtenerAccesos | api/accesos.py:9-45 | valid parameters give the requested page of the newest-first selection, with metadata from the selection's size; invalid ones give 422 |
| AccesosApi.PagePastTheEnd | api/accesos.py:34-44 | a page beyond the last returns no items while its metadata reports the last page with no next |
| Common.WindowItem | api/accesos.py:34-42 | (helper step) item `i` of an `OFFSET o LIMIT l` window that reaches it is row `o + i` |
| AccesosApi.ItemOfPage | api/accesos.py:34-44 | item `i` of a page is row `offset + i` of the newest-first selection, whenever that row exists |
| AccesosApi.PageOfRow | api/accesos.py:34 | row `k` lies `k mod page_size` places into page `k div page_size + 1`, so with `ItemOfPage` every row is served on some page |
| AccesosApi.NextPageOffset | api/accesos.py:34 | (helper step) page `p + 1` starts one page size after page `p` |
| AccesosApi.PagesTile | api/accesos.py:34-42 | on any ordered sequence, page `p` followed by page `p + 1` is the two-page window at page `p` |
| AccesosApi.ConsecutivePagesTile | api/accesos.py:34-44 | pages `p` and `p + 1` together are the two-page window at page `p`: no row is skipped or repeated |
| AccesosApi.StoreChangesExactlyOnGrant | api/accesos.py:62-83 | on both routes the store is left unchanged exactly when the attempt is denied |
| LegacyApi.GrantRecord | main.py:238-254 | a permitted row has exactly one timestamp, the entry one for an entry and the exit one for an exit, holding the request time, and no denial reason |
| LegacyApi.CrearAcceso | main.py:187-287 | the 400 exactly when the picture has no face; then an unreadable template is the 500, no match and another area the two 403s, and a match in the requested area is granted; every denial writes nothing; a grant appends one facial row with its confidence |
| LegacyApi.FacialRoutesAgree | main.py:204-236 | on the same employees the legacy route gives the service's answer, except that no face is a 400 there and a 500 in the service |
| LegacyApi.CrearAccesoPin | main.py:289-370 | denials are the two PIN 403s and write nothing; a grant exactly when the first employee with the PIN in the area is active, appending one PIN row with confidence 1.0 |
| LegacyApi.PinRoutesAgree | main.py:302-318 | on the same employees the legacy PIN route answers exactly as the service does |
| LegacyApi.RegistrarRostro | main.py:162-185 | 404 for an unknown employee, then 400 for a picture without a face, both writing nothing; otherwise every row with the id gets the first face's JSON as its template |
| LegacyApi.RegisteredTemplateReadsBack | main.py:177-183 | when JSON reads the registered face vector back, the stored template reads as exactly that vector |
| LegacyApi.RegistrationKeepsTemplatesReadable | main.py:177-183 | when JSON reads the registered face vector back, and every template read before registration, every template reads after it |
| LegacyApi.RegisteredFaceMatchesFully | main.py:216-224 | when JSON reads the registered face vector back and every other template reads, matching the registered picture again yields a match with confidence 1.0 |
| LegacyApi.CrearAccesoKeepsKeysAscending | main.py:256-267 | a facial attempt keeps the table's `AccesoID`s ascending and below the next serial value |
| LegacyApi.CrearAccesoPinKeepsKeysAscending | main.py:339-350 | a PIN attempt keeps the table's `AccesoID`s ascending and below the next serial value |
| LegacyApi.RegistrarRostroKeepsKeysAscending | main.py:177-183 | registration, an `UPDATE` of `empleados` only, keeps the access keys ascending |
| LegacyApi.AppendNextKeepsKeysAscending | database.py:86 | (helper step) appending a row that takes the next serial key keeps the keys ascending |
| LegacyApi.LexLeReflexive | main.py:131-137 | (helper step) the text bounds are inclusive: a bound equal to a timestamp admits it |
| LegacyApi.GrantedRowDateBounds | main.py:131-137 | for a row a legacy grant wrote, the two-column date bounds reduce to comparing the bound with its one timestamp |
| LegacyApi.LegacyKeptAccesos | main.py:111-137 | exactly the accesses that join an employee and pass every truthy filter |
| LegacyApi.LegacySelected | main.py:111-137 | one joined row per kept access, in table order, whose name, surname, DNI and role are those of the employee it joins |
| LegacyApi.ObtenerAccesos | main.py:98-144 | a negative limit or offset, or a `tipo_acceso` naming no enum label, is the unhandled 500; otherwise row `i` is the selected row at position `offset + i` from the newest, exactly as many as the window holds, each a stored access that passes the filters and carries its employee's columns |
| LegacyApi.LegacyListingCoversSelection | main.py:111-144 | every selected row appears in any window covering its position, newest first |
| LegacyApi.LegacyListingNewestFirst | main.py:105-139 | with ascending keys, which an empty table has and every legacy writer keeps, the rows come newest first, and the defaults return `min(100, n)` rows such that every matching row left out is older than every row returned |

## Left out

- HTTP, CORS, middleware, sessions, engines, logging and the seeder's other data are not modelled. The logging middleware of main.py refers to a `Request` that is never imported.
- Face detection and vector distance are uninterpreted parameters. Decoding an image and numpy errors (vectors of different lengths) are not modelled, because the distance is total.
- JSON, base64, UTF-8 and AES-GCM are parameters with stated laws, not implementations.
- `datetime.now()` and `os.urandom` are parameters. The service's timestamps are integers, and the legacy handlers' are strings.
- `datetime.fromisoformat` is an abstract parser. Comparing a `FechaHora` column with a datetime is ordinary integer comparison. The legacy text comparison is code-point order, not the database collation.
- SQL result order without `ORDER BY` is taken to be insertion order.
- Thin lookups are not modelled: `get_all_empleados`, `get_acceso`, `obtener_acceso`, area_service and the area endpoints. They add no decision beyond the lookups that are modelled.
- AccesoService.InternalError: for a template that does not parse, the 500 detail carries only the fixed prefix, not the text of Python's exception.
- EmpleadoService.CreateEmpleado: the 500 "Error al crear empleado" is not modelled, because the append cannot fail.
- EmpleadoService.DeleteEmpleado: the 500 "Error al eliminar empleado" is not modelled, for the same reason.
- LegacyApi.RegistrarRostro: the `UPDATE` is modelled as touching every row with the id. Under the primary key there is only one.
- LegacyApi.LegacySelected: an access joins at most one employee, because `EmpleadoID` is a primary key.
- FaceRecognition.CompareFaces: a template that is a bare JSON number, or a list holding one list of numbers, is broadcast by numpy and gets a distance in the source; the model treats every template that is not a flat list of numbers as unreadable, which the service turns into a 500. Modelling broadcasting would need shapes the abstract distance does not have.
- Repositories.DeleteEmpleado: the `IntegrityError` the commit raises while accesses still reference the employee is not modelled. Its one caller, EmpleadoService.DeleteEmpleado, deletes those accesses first.
- Repositories.CreateEmpleado: the unique-constraint failure on DNI or Email is not modelled. EmpleadoService.CreateEmpleado rejects both duplicates before inserting.
- Repositories.CreateAcceso: the foreign-key failure for an unknown employee or area is not modelled. Both callers record accesses only for a stored employee in its own area, which exists while the store invariants hold.
- AccesoService.GetAllAccesos: a `tipo_acceso` text naming no enum value matches nothing. The database's enum cast error for it is not modelled.
- Repositories.GetAllWithEmployeeInfo: `limit` and `offset` are natural numbers. The API derives them from validated page parameters, so they are never negative.
- The `Manual` access method of the legacy schema is declared, but no modelled handler writes it.

## Findings

| source | as written | input that shows it | evidently intended | confidence | as-written member | corrected member |
|---|---|---|---|---|---|---|
| services/acceso_service.py:50 | `accesos, total = self.acceso_repo.get_all_with_employee_info(...)` unpacks the plain list that database/repositories.py:114 returns. A list of length other than two raises `ValueError`, and a two-row list binds a row dict to `total`, so `total + page_size` raises `TypeError`. Every valid `GET /accesos` therefore ends in an unhandled 500. Only a non-positive page size, which the endpoint's validation excludes, skips the addition | a store with one access and no filters, `page = 1`, `page_size = 10` (`AccesoService.ListingCounterexample`) | the page of rows plus pagination metadata computed from the number of matching rows | not executed | AccesoService.GetAllAccesosAsWritten | AccesoService.GetAllAccesos |

The endpoint over each version is `AccesosApi.ObtenerAccesosAsWritten` and `AccesosApi.ObtenerAccesos`. The rest of the model, and every listing lemma, uses the corrected version.

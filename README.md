# StudyFlow REST façade — a Dafny model

StudyFlow's web service (`api/api.php`) exposes two CRUD resources, `studenti`
(students) and `corsi` (courses), and one read-only relation, `iscrizioni`
(enrollments). Every request ends in exactly one response. That response is
either an error object `{"errore": …}` with a non-2xx status, the data the
handler read back from the database, or an empty body (204 after a DELETE, 200
for an `OPTIONS` preflight).

This project models the PHP script's core:

- **Routing** (`Router`): the path after the first `api.php/` is trimmed of `/`
  and split on `/`. Its first three parts are the resource, the id (or the
  relation kind) and the sub-parameter. The resource is dispatched to the CRUD
  handler, to the relation handler, or to a fixed 405 or 404. `Router.Handle`
  runs one request from start to finish against a `Database` object. That
  includes the CORS preflight exit for `OPTIONS`.
- **The CRUD handler** `gestisciRisorsa` (`Resource`):
  - `GetSpec`, `PostSpec`, `PutSpec`, `DeleteSpec` and `ResourceSpec` are
    functions. From the request and the table's abstract value they give the
    response and the table's value afterwards.
  - The methods `HandleGet` … `HandleResource` do the same work step by step
    against a mutable `Store.Table`. They are proved to agree with those
    functions.
  - The lemmas state what the service promises: a created row can be read back,
    a PUT touches only the fields it names, a deleted row is gone, and the id
    invariant is kept.
- **The field registry** (`Schema`): the columns of each table, their
  `bind_param` type letters and the required fields. It also holds the
  allow-list `array_keys(array_intersect_key(…))` that keeps client-chosen keys
  out of the SQL text, and the "not found" messages.
- **Statement building** (`Queries`): the INSERT and UPDATE statements, one `?`
  per column. Their type letters and values are built by the `foreach` loop
  `BindParameters` and are proved to stay aligned with the columns.
- **The store** (`Store`): each table is an object holding its rows by id and
  the next auto-increment id. `ExecuteInsert`, `ExecuteUpdate` and
  `ExecuteDelete` change it in place. A statement the database rejects is an
  error message passed in as a parameter, and it changes nothing.
- **The relation handler** `gestisciIscrizioni` (`Enrollments`): only GET is
  served. The answer is the enrollments whose student (or course) id equals the
  id, each as often as stored.
- **PHP semantics** the code depends on (`Php`):
  - truthiness (`if ($id)`) and `empty()`;
  - `trim`, `rtrim`, `ucfirst`, `strpos`, `explode` and `implode`;
  - the `(int)` conversion that `bind_param('i', …)` applies to an id string.

A DELETE the database rejects reports `affected_rows == -1`, not 0. The test
`=== 0` (api.php:255) is then false, so the code answers 204 rather than 404.
`DeleteSpec` and `RejectedDeleteAnswers204` model that.

One behaviour departs from the code: a PUT whose body names no registered
column, for a row that exists, is refused with 400 in this model. The code as
written lets it through to an UPDATE without a SET clause (see Findings). Every
check the code makes comes first and in the code's order, so an id that is not
stored still gets the code's 404.

## Model

| member | source | states |
|---|---|---|
| Php.RTrim | api/api.php:127 | `rtrim($t, 'i')`: the result is a prefix of the input, every dropped character is the trimmed one, and the result does not end with it |
| Php.LTrim | api/api.php:81 | left half of `trim`: a suffix of the input, every dropped character is the trimmed one, and the result does not start with it |
| Php.Trim | api/api.php:81 | `trim($uri, '/')`: the result is a contiguous piece of the input, and only `/` characters are cut off before and after it; neither end of the result is `/`; a string with no `/` at either end is returned unchanged |
| Php.TrimCut | api/api.php:81 | `trim` keeps one contiguous piece of its input and cuts only the trimmed character off either side |
| Php.TrimEnds | api/api.php:81 | neither end of a trimmed string is the trimmed character, and a string free of it at both ends is its own trim |
| Php.LTrimPadding | api/api.php:81 | a run of the trimmed character in front of a string that does not start with it is removed exactly |
| Php.RTrimPadding | api/api.php:81 | a run of the trimmed character after a string that does not end with it is removed exactly |
| Php.TrimPadding | api/api.php:81 | `trim` of a string padded on both sides with the trimmed character gives back the unpadded string |
| Php.RTrimOne | api/api.php:127 | a string ending in exactly one `i` loses only that `i` to `rtrim` |
| Php.Truthy | api/api.php:131 | `if ($id)`, also `!$id` on lines 195 and 246: only a non-empty text is true; every text of two or more characters is true, "00" included; a one-character text is true unless it is "0" |
| Php.EmptyAt | api/api.php:158 | `empty($dati[$campo])` holds exactly when the key is missing or its value is not truthy |
| Php.IntVal | api/api.php:134 | the `(int)` conversion `bind_param("i", $id)` applies, also on lines 206, 251, 291 and 302: the result is negative only after a leading `-`; text that starts with neither a digit nor a sign gives 0; text made only of digits gives its decimal value |
| Php.UcFirst | api/api.php:140 | `ucfirst`: same length, first character upper-cased, the rest unchanged |
| Php.StrPos | api/api.php:75-76 | `strpos`: a returned position is an occurrence with no occurrence before it; no result means the needle occurs nowhere |
| Php.StrPosFrom | api/api.php:75-76 | the same search from a start position: the first occurrence at or after it, or none at all |
| Php.StrPosAfter | api/api.php:75-76 | when the needle's first character appears nowhere else in it, the first occurrence after a prefix free of the needle is at the prefix's end |
| Php.Explode | api/api.php:81 | `explode('/', …)` yields at least one part and no part contains the delimiter |
| Php.ImplodeExplode | api/api.php:81 | joining the exploded parts with the delimiter gives back the original string |
| Php.ExplodeImplode | api/api.php:81 | parts free of the delimiter (at least one) survive implode followed by explode |
| Php.ExplodeWhole | api/api.php:81 | a string without the delimiter explodes into itself alone |
| Php.ExplodeCons | api/api.php:81 | a delimiter-free piece followed by the delimiter comes off as the first part |
| Php.DigitPrefix | api/api.php:134 | the leading digits `(int)` reads: a prefix of the input, all digits, followed by a non-digit or the end of the input |
| Php.DecimalString | api/api.php:190 | the decimal text of the id returned with a new row, which a client writes back into the path: non-empty, all digits, and a leading `0` only for 0 |
| Php.DigitPrefixOfDigits | api/api.php:134 | `(int)` reads every character of a string made only of digits |
| Php.DecimalValueOfString | api/api.php:134 | the digits of the decimal text of n have value n |
| Php.IntValOfDecimal | api/api.php:134 | the `(int)` conversion applied by `bind_param('i')` inverts decimal printing: `IntVal(DecimalString(n)) == n` |
| Php.TruthyDecimal | api/api.php:131 | the decimal text of an id is truthy exactly when the id is not 0 |
| Schema.FieldNames | api/api.php:115-118 | the registered column names, one per registry entry, in registry order |
| Schema.RegistryWellFormed | api/api.php:115-124 | column names are distinct, every required field is a column, and every type letter is one `bind_param` accepts |
| Schema.BindType | api/api.php:174 | `$campiTabella[$tabella][$campo]`: the letter is the one the registry pairs with that column |
| Schema.FieldType | api/api.php:174 | looking a column up in a field list gives a letter the list pairs with it |
| Schema.Singular | api/api.php:127 | `rtrim($tabella, 'i')` on the two table names: the name without its one final `i` |
| Schema.NotFoundMessage | api/api.php:140 | the 404 message, also on lines 209 and 256: the table name without its final `i`, first letter upper-cased, followed by " non trovato" |
| Schema.StudentNotFoundMessage | api/api.php:127 | the 404 message for `studenti` is "Student non trovato" |
| Schema.CourseNotFoundMessage | api/api.php:127 | the 404 message for `corsi` is "Cors non trovato", because `rtrim` removes only the final `i` |
| Schema.MessageOf | api/api.php:140 | for a table named by a word plus one `i`, the message is that word with its first letter capitalised, followed by " non trovato" |
| Schema.Required | api/api.php:121-124 | `$campiObbligatori`: a non-empty list of distinct field names for each table (every one a column, by `RegistryWellFormed`) |
| Schema.SelectColumns | api/api.php:164 | `$campi` (also line 213): a column is selected exactly when it is registered and a key of the body; no repeats, never more than the registry holds |
| Http.Fail | api/api.php:316-323 | `rispondi(["errore" => $message], $status)`: the given status and an error body carrying the message |
| Schema.KeepKeys | api/api.php:164 | `array_keys(array_intersect_key(…))`: a name is selected iff it is a registered name and a body key; never longer than the registry; distinct names stay distinct |
| Schema.KeepKeysNone | api/api.php:164 | a body that names no column selects nothing |
| Schema.KeepKeysInOrder | api/api.php:164 | the selected columns keep the registry's order |
| Schema.KeepKeysOnlyKeys | api/api.php:164 | the selection depends only on the body's keys, never on its values |
| Schema.Restrict | api/api.php:164-176 | the row written from a body holds exactly the body's registered keys, each with the body's value |
| Schema.RowOfAligned | api/api.php:173-176 | a row built from columns and values taken from the body column by column holds exactly the body's entries for those columns |
| Schema.SelectedRow | api/api.php:164-179 | writing the selected columns with their aligned values stores the allow-listed body |
| Queries.BindParameters | api/api.php:171-176 | the `foreach` loop: the i-th type letter and the i-th value belong to the i-th column |
| Queries.BuildInsert | api/api.php:164-179 | the INSERT names exactly the registered columns present in the body, in registry order, with one `?` each and aligned parameters |
| Queries.BuildUpdate | api/api.php:213-232 | the UPDATE has one `col = ?` per selected column and aligned parameters, then an `i` letter and the id last |
| Store.Table.Find | api/api.php:133-139 | `SELECT … WHERE id = ?`: a row is found exactly when the id is stored, and it is that row |
| Store.Table.ExecuteInsert | api/api.php:179-184 | on success the described row is stored under the old next id, which is returned and was unused, and the next id moves on; on failure nothing changes |
| Store.Table.ExecuteUpdate | api/api.php:232-235 | the row whose id is the `(int)` conversion of the last bound value gets the assigned columns overwritten; nothing else changes |
| Store.Table.ExecuteDelete | api/api.php:250-255 | `affected_rows` is 1 or 0 by whether the id was stored, and that row is removed; a rejected statement reports -1 and changes nothing |
| Resource.FirstMissing | api/api.php:157-161 | the first required field, in order, that `empty()` finds missing or empty, or none when all are present |
| Resource.CheckRequired | api/api.php:157-161 | the validation loop stops at exactly the first missing required field |
| Resource.GetSpec | api/api.php:130-149 | GET answers 200 or 404; a truthy id whose `(int)` value is stored gets that row, and one whose value is not stored gets 404 with the table's "non trovato" message; all rows exactly when the id is falsy |
| Resource.PostSpec | api/api.php:152-191 | POST answers 201, 400 or 500; 400 exactly when a required field is empty, with the message naming the first one; 500 "Errore inserimento: " and the store's message when the insert fails; 201 exactly when neither happens, and then the new row is stored under the old next id, the next id moves on and every other row is kept; on an error nothing changes |
| Resource.PutSpec | api/api.php:193-242 | PUT answers 200, 400, 404 or 500: "ID mancante" for a falsy id, then "Nessun dato da aggiornare" for an empty body, then 404 with the "non trovato" message exactly for an unstored row, then "Nessun dato da aggiornare" for a body with no registered column, then 500 "Errore aggiornamento: " when the update fails; 200 exactly when none of these happens, and then the ids and every other row are kept; on an error nothing changes |
| Resource.DeleteSpec | api/api.php:244-260 | DELETE answers 204, 400 or 404: 400 "ID mancante" exactly for a falsy id; 404 with the "non trovato" message exactly when the statement runs and the row is not stored; 204 with no body otherwise, having removed exactly the id's row when the statement ran; no other row changes |
| Resource.ResourceSpec | api/api.php:129-264 | `switch ($metodo)`: the statuses are those the handler writes; 405 "Metodo non supportato" exactly for a verb other than GET, POST, PUT and DELETE; an error status or a GET leaves the table as it was |
| Resource.NothingToUpdateAsWritten | api/api.php:200 | `empty($dati)` on the body array: true exactly for the empty map |
| Resource.NothingToUpdate | api/api.php:213-218 | the corrected check: true exactly when no key of the body is a registered column, so that the UPDATE would have no SET clause |
| Resource.HandleGet | api/api.php:130-149 | GET answers as `GetSpec`: all rows for a falsy id, else the row of `(int)` id, or 404 |
| Resource.HandlePost | api/api.php:152-191 | POST answers and changes the table as `PostSpec`: 400 for the first missing field, 500 when the insert fails, else 201 with the re-read new row |
| Resource.HandlePut | api/api.php:193-242 | PUT answers and changes the table as `PutSpec`: the checks of lines 195, 200 and 208 in source order, then the corrected check that the body names a registered column, then the 500 of a failed update, else 200 with the re-read row |
| Resource.HandleDelete | api/api.php:244-260 | DELETE answers and changes the table as `DeleteSpec`: 400 without an id, 404 only when `affected_rows` is 0, else 204 |
| Resource.HandleResource | api/api.php:129-264 | `switch ($metodo)`: each verb's handler, and 405 "Metodo non supportato" for any other verb |
| Resource.PostThenGet | api/api.php:152-191 | a POST that succeeds stores exactly the registered fields of the body under an unused id, every required field among them, and a GET of that id returns the same row |
| Resource.PostRejectsFirstMissing | api/api.php:157-161 | the first required field that is missing or empty decides the 400 message, and nothing is written |
| Resource.PutUpdatesOnlyGivenFields | api/api.php:193-242 | a successful PUT overwrites only the registered fields the body names, in the one row the id selects; other fields and rows are unchanged, and the response is what a GET then returns |
| Resource.PutWritesSomeColumn | api/api.php:213-218 | with the corrected check, every successful PUT writes at least one registered column of the body |
| Resource.NothingToUpdateWidens | api/api.php:200-202 | the corrected check refuses every body the written check refuses |
| Resource.UnknownOnlyBodyPassesAsWritten | api/api.php:200-218 | the written check lets a body with only an unknown key through; for a stored row 1 the corrected check answers 400 where the code would build an UPDATE with no SET clause, and for an unstored id the answer stays the code's 404 |
| Resource.DeleteThenGet | api/api.php:244-260 | a successful DELETE removes exactly that row; a GET or a second DELETE of the same id then answers 404 |
| Resource.RejectedDeleteAnswers204 | api/api.php:250-260 | a DELETE the store rejects still answers 204, and the row stays |
| Resource.ResourceKeepsInvariant | api/api.php:129-264 | every request keeps the id invariant (every stored id lies below the next id), and no stored row other than the one a PUT names changes value |
| Resource.PostKeepsInvariant | api/api.php:179-190 | a POST keeps the id invariant and keeps every existing row |
| Resource.PutKeepsInvariant | api/api.php:193-242 | a PUT keeps the id invariant |
| Resource.DeleteKeepsInvariant | api/api.php:244-260 | a DELETE keeps the id invariant |
| Enrollments.BoundId | api/api.php:291 | what `bind_param("i", $id)` sends, also on line 302: NULL exactly for a missing segment; the value of a text made only of digits |
| Enrollments.Matches | api/api.php:289 | `WHERE i.studente_id = ?`, or `i.corso_id` on line 300: NULL matches nothing; otherwise the enrollment's student (or course) id equals the bound value |
| Enrollments.Select | api/api.php:285-291 | the `WHERE` filter: an enrollment is returned iff it is stored and matches the bound id |
| Enrollments.SelectKeepsEveryMatch | api/api.php:285-304 | every matching enrollment is returned as often as it is stored, and no other enrollment is returned |
| Enrollments.HandleEnrollments | api/api.php:275-306 | a non-GET request gets 405; a GET gets 200 with exactly the matching enrollments, and an empty list, not a 404, when none match |
| Enrollments.StudentEnrollments | api/api.php:283-293 | a student's enrollments are those whose student id is the `(int)` id, with multiplicity; a missing id returns none |
| Enrollments.CourseEnrollments | api/api.php:294-304 | a course's enrollments are those whose course id is the `(int)` id, with multiplicity; a missing id returns none |
| Router.AfterApiPrefix | api/api.php:75-79 | the text after the first `api.php/`, or "" when the path has none |
| Router.ParsePath | api/api.php:81-84 | the resource, id and sub-parameter contain no `/`; a sub-parameter exists only when an id does; an empty resource carries neither |
| Router.Dispatch | api/api.php:88-100 | `studenti` and `corsi` go to the CRUD handler with the id; `iscrizioni` with `studente` or `corso` goes to the relation handler with the sub-parameter; any other `iscrizioni` request gets 405; any other resource gets 404 |
| Router.Handle | api/api.php:57-100 | `OPTIONS` is answered 200 with no body; otherwise the routed handler answers, only the routed table changes, and only as `ResourceSpec` says |
| Router.HandleCrud | api/api.php:89-90 | `gestisciRisorsa($metodo, $id, …)` on the table the resource names: that table changes only as `ResourceSpec` says, and the other table not at all |
| Router.WithoutApiPrefixNotFound | api/api.php:75-99 | a path without `api.php/` has an empty resource and is answered 404 |
| Router.AfterApiPrefixOf | api/api.php:75-76 | whatever precedes the first `api.php/`, the text after it is taken |
| Router.ParsePathOf | api/api.php:81-84 | the segments are the first three `/`-separated pieces after the prefix, whatever precedes it and however many `/` surround the pieces |
| Router.JoinedEnds | api/api.php:81-84 | non-empty end pieces free of `/` join into a string that neither starts nor ends with `/` |
| Router.CollectionPath | api/api.php:81-90 | `…api.php/<table>`, with or without trailing slashes, reaches that table's handler with no id |
| Router.PairPath | api/api.php:81-84 | `…api.php/a/b` parses to resource a and id b |
| Router.TriplePath | api/api.php:81-84 | `…api.php/a/b/c` parses to resource a, id b and sub-parameter c |
| Router.CrudPath | api/api.php:88-90 | `…api.php/<table>/<n>` reaches that table's handler with the text of n as id |
| Router.GetRowByPath | api/api.php:88-90 | for n ≠ 0, a GET of `…api.php/<table>/<n>` returns row n when the table holds it, and 404 otherwise (for n = 0 the id "0" is falsy and every row is listed) |
| Router.EnrollmentPath | api/api.php:91-94 | `…api.php/iscrizioni/<kind>/<n>` reaches the relation handler of that kind with id n |
| Router.OtherEnrollmentPath | api/api.php:91-97 | `…api.php/iscrizioni/<x>` for any non-empty segment x without `/` other than `studente` and `corso` is answered 405 |
| Router.EnrollmentRootPath | api/api.php:91-97 | `…api.php/iscrizioni`, with or without trailing slashes, has no second segment and is answered 405 |

## Left out

- Database connection: opening the connection, setting the character set, and
  the 500 on a connection failure (lines 44-50) are not modelled. Every request
  is modelled on a connected store.
- SQL text: statements are modelled by their columns, placeholders, type letters
  and values. The SQL strings themselves are not built.
- Enrollment JOINs: the extra columns the JOINs add (course title and teacher,
  student name and e-mail) are taken as already present in each stored
  enrollment. The enrollments are a fixed list, independent of the two tables.
  So two things are not modelled: the INNER JOIN (lines 288 and 299) dropping
  an enrollment whose student or course is not stored, and whatever a foreign
  key does to enrollments when a student or course is deleted.
- Request body: `ottieniDatiRichiesta` (lines 331-341) is not modelled. That
  covers reading `php://input`, `json_decode` and the fallback to `$_POST`. The
  body is a parameter: a map from keys to string values, or the empty map.
  Non-string JSON values (numbers, booleans, nested objects), and how `empty()`
  treats them, are not modelled.
- Output: `rispondi` (lines 316-323) becomes the returned `Http.Response` value.
  The HTTP headers, `json_encode`, `echo`, `exit`, the CORS headers (lines
  53-55) and the unused `$elemento` label are not modelled.
- `parse_url` (line 73): the path is a parameter. Query strings and fragments
  are assumed already removed.
- Store.Table.ExecuteInsert: a rejected INSERT leaves the next id unchanged. A
  real auto-increment counter may skip ids. The property that matters (a stored
  id is always below the next id) holds either way.
- Php.IntVal: models an optional sign followed by leading decimal digits. It does
  not model leading whitespace, exponent or hexadecimal forms, or PHP's clamping
  on integer overflow.
- Schema.BindType: the `d` letter of `prezzo` is kept as a letter. Values stay
  strings, so floating-point conversion of prices is not modelled.
- Enrollments.Select: the matching enrollments are listed in store order. The
  JOIN queries have no `ORDER BY`, so the database may return them in any
  order; the order is a choice of the model. `SelectKeepsEveryMatch` states
  the result up to order.
- Store defaults: a column the body does not name is taken as NULL, that is,
  absent from the stored row. Column defaults of the real tables are not
  modelled. `Schema.Row`, `PostSpec` and `PostThenGet` rely on this.
- Resource.GetSpec: GET without an id returns the table as a map from id to row.
  `SELECT *` without `ORDER BY` has no defined row order, so the order of the
  JSON array is not modelled.
- Store: mysqli is modelled in its non-throwing error mode, where `execute()`
  returns false. A rejected statement in the throwing mode would end the script
  with an uncaught exception, and that mode is not modelled.
- The commented-out debug block (lines 59-70) is not part of the program.

## Findings

| source | as written | input that shows it | evidently intended | confidence | as-written member | corrected member |
|---|---|---|---|---|---|---|
| api/api.php:200-218 | PUT refuses only a body with no keys at all (`empty($dati)`). A body whose keys are all unknown columns passes, and the code builds `UPDATE studenti SET  WHERE id = ?`. The database rejects that as a syntax error at `prepare`, so the script fails with an uncaught error and not a JSON response. | `PUT …/api.php/studenti/1` with body `{"eta": "20"}` while student 1 is stored (for an unstored id the code answers 404) | answer 400 "Nessun dato da aggiornare" when the body names no registered column | high (not executed) | Resource.UnknownOnlyBodyPassesAsWritten | Resource.PutWritesSomeColumn |

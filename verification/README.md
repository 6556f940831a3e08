# Attendance record store — a Dafny model

This project models the attendance router of the HR management server
(`server/src/routes/attendance.ts`). The database table is a value:
`Table(rows: map<nat, Record>, nextId: nat)`. `rows` maps the
auto-increment id to the stored row and `nextId` is the next id the counter
hands out. Each HTTP handler is a pure function from the table and the
request to the response and the table after the request:

- `Schemas` holds the two zod schemas. The create schema requires a
  non-empty employee id and name, a `YYYY-MM-DD` date, optional
  `HH:MM` check-in/check-out times, and a status from five values that
  defaults to `present`. The update schema makes every field optional but
  requires the employee id and date again. A refusal reports the set of
  fields at fault. A request body field is left out, `null`, a string, or
  another JSON value (`Schemas.Field`).
- `Formats` holds the date and time patterns as predicates over
  `seq<char>`. Each is paired with a format/parse round trip, and the
  module proves that string order on well-formed dates is chronological
  order.
- `Records` holds the row, the row mapper (`mapAttendanceRow`) and the
  table invariant `Valid`. The invariant says:
  - ids are positive and below the counter;
  - (employeeId, date) is unique;
  - every row is well formed.
- `Store` holds get by id, create-or-merge (`INSERT … ON DUPLICATE KEY
  UPDATE` followed by the read-back by key), partial update by id, and
  delete by id.
- `Listing` holds the filtered list. Its `WHERE` clause is built as a
  list of conditions joined with AND, and its rows are ordered by date,
  newest first.
- `Faces` holds the verify-face handler. The comparator is a function
  parameter, so the model fixes only which requests reach it and with
  which faces.
- `Properties` holds the lemmas that relate several requests.

Every operation takes a `Valid` table and returns one. This is the
uniqueness of (employeeId, date) that the source leaves to the database's
unique key. Create keeps it by merging. Update keeps it because it never
writes the employee id or date. Delete only removes rows.

Three behaviours of the code are worth stating on their own:

- A create request must carry `employeeName` every time, including a
  second request for a key that already exists. A check-out POST
  without it is refused with 400 (`Properties.CheckOutNeedsEmployeeName`).
- A verify-face request without `registeredFace` is refused with 400
  before the stored-face lookup can run (see Findings).
- A merge whose body leaves the status out resets the stored status to
  `present`. The schema default is applied first, and the merge then
  always overwrites the status (`Properties.MergeWithoutStatusResets`).

## Model

| member | source | states |
|---|---|---|
| `Formats.ParseDate` | server/src/routes/attendance.ts:13 | Accepts exactly the strings of four digits, dash, two digits, dash, two digits; the fields it reads back fit their widths |
| `Formats.FormatParseDate` | server/src/routes/attendance.ts:13 | Every accepted date is the zero-padded spelling of the numbers it reads back, so the pattern checks shape, not calendar validity |
| `Formats.ParseFormatDate` | server/src/routes/attendance.ts:13 | Every zero-padded year/month/day spelling is accepted and reads back as the same numbers |
| `Formats.ParseTime` | server/src/routes/attendance.ts:14-15 | Accepts exactly the strings of two digits, colon, two digits |
| `Formats.FormatParseTime` | server/src/routes/attendance.ts:14-15 | Every accepted time is the zero-padded spelling of its hour and minute (up to 99:99) |
| `Formats.ParseFormatTime` | server/src/routes/attendance.ts:14-15 | Every zero-padded hour/minute spelling is accepted and reads back unchanged |
| `Formats.DateOrderIsChronological` | server/src/routes/attendance.ts:60-68 | On well-formed dates the string comparison used by the range filters and the ordering agrees with year-month-day order |
| `Records.ParseStatus` | server/src/routes/attendance.ts:16 | A string is a status only if it is the wire spelling of that status |
| `Records.ParseStatusName` | server/src/routes/attendance.ts:16 | Each of the five statuses is recognised from its own spelling |
| `Records.ToView` | server/src/routes/attendance.ts:27-40 | The returned row keeps id, key, name and status; an optional column comes back exactly when it is neither NULL nor empty, and then as stored |
| `Records.ViewRoundTrip` | server/src/routes/attendance.ts:27-40 | For a row written through the handlers the returned view loses nothing: the stored row can be read back from it |
| `Records.FindKey` | server/src/routes/attendance.ts:195-201 | On a table with the unique key, the lookup by (employeeId, date) finds a row with that key, or reports that no row has it |
| `Schemas.Refused` | server/src/routes/attendance.ts:121-126 | A refusal names exactly the fields the schema rejects |
| `Schemas.StatusOf` | server/src/routes/attendance.ts:16 | A left-out status becomes `present`; a given status is the one spelled |
| `Schemas.ParseCreate` | server/src/routes/attendance.ts:10-20 | Refused exactly when some field fails its rule, with exactly those fields; otherwise the row to insert is well formed and carries the supplied values, status defaulting to `present` |
| `Schemas.PatchOf` | server/src/routes/attendance.ts:244-271 | On an accepted body, a column is set exactly when its key is present, `null` or `""` clearing a nullable column; the patch is empty exactly when no updatable key is present |
| `Schemas.ParseUpdate` | server/src/routes/attendance.ts:219-271 | Refused exactly when some field fails the update schema; otherwise the patch is empty exactly when none of the seven updatable fields is present, and applying it sets exactly the supplied columns |
| `Store.Get` | server/src/routes/attendance.ts:96-112 | Found exactly when the id is in the table, returning the row stored there; otherwise 404 |
| `Store.Upsert` | server/src/routes/attendance.ts:142-165 | Keeps the table valid: a new key is inserted under the next counter value, an existing key's row is merged in place, and the key is found afterwards |
| `Store.Create` | server/src/routes/attendance.ts:120-210 | 400 with the table unchanged exactly when validation fails; otherwise 201 with the unique row stored under the body's key; never the 500 read-back failure; the table stays valid |
| `Store.MergeFollowsBody` | server/src/routes/attendance.ts:146-153 | Coalescing keeps the stored value unless the body gives a non-empty one, overwrites the status, and keeps the key and employee name |
| `Store.CreateInsertsNewKey` | server/src/routes/attendance.ts:142-165 | A valid create for a new key adds exactly one row, under the next id, carrying the supplied fields; all other rows are unchanged |
| `Store.CreateMergesTakenKey` | server/src/routes/attendance.ts:146-163 | A valid create for an existing key keeps the row count, returns that row's id, changes only that row, and merges it field by field |
| `Store.Update` | server/src/routes/attendance.ts:218-297 | 400 and no write for an invalid body or an empty update; 404 and no write for an absent id; 400 only for those reasons, and an accepted non-empty update of a present id always succeeds; then only that row changes, in exactly the supplied fields, a supplied null clearing a column |
| `Store.Delete` | server/src/routes/attendance.ts:323-337 | 404 and no change for an absent id; otherwise exactly that row is removed and all others stay |
| `Listing.AllHoldConcat` | server/src/routes/attendance.ts:75 | Joining condition lists with AND holds exactly when each list holds |
| `Listing.ConditionsMeanSelects` | server/src/routes/attendance.ts:47-75 | The assembled WHERE clause holds of a row exactly when every given filter does: employee, date, date from, date until, status |
| `Listing.UnknownStatusIgnored` | server/src/routes/attendance.ts:70-73 | A status parameter outside the five values adds no condition, as if it were left out |
| `Listing.InsertByDateSorted` | server/src/routes/attendance.ts:82 | Placing a row into a newest-first list keeps it newest-first |
| `Listing.InsertByDateDistinct` | server/src/routes/attendance.ts:82 | Placing a row with a new id keeps ids distinct and adds exactly that id |
| `Listing.List` | server/src/routes/attendance.ts:43-88 | Keeps the rows the assembled `WHERE` conditions hold of, which are exactly the rows every given filter selects; returns them each once, as stored, ordered by date descending, which is chronological order |
| `Faces.StoredFace` | server/src/routes/attendance.ts:373-388 | The stored-face lookup yields a face, an unknown employee (404), or an employee without a registered face (400) |
| `Faces.VerifyFace` | server/src/routes/attendance.ts:360-400 | 400 exactly when the employee id, registered face or captured face is falsy; otherwise the comparator's answer on the two given faces |
| `Faces.VerifyFaceIgnoresDirectory` | server/src/routes/attendance.ts:364-389 | The handler's answer never depends on the employees table: the fallback lookup is unreachable |
| `Faces.VerifyFaceIntended` | server/src/routes/attendance.ts:370-392 | With the corrected guard, 400 exactly when the employee id or captured face is falsy; a given registered face is compared directly |
| `Faces.IntendedFallsBackToStoredFace` | server/src/routes/attendance.ts:371-389 | With the corrected guard a missing registered face is read from the employees table: compared if stored, 404 if the employee is unknown, 400 if none is stored |
| `Faces.StoredFaceNeverUsed` | server/src/routes/attendance.ts:364-372 | For an employee with a stored face and no registered face in the body, the handler refuses while the corrected one compares against the stored face |
| `Properties.CreateThenGet` | server/src/routes/attendance.ts:142-210 | After a valid create for a new key, get by the returned id returns the same row, with status `present` unless one was given |
| `Properties.CheckInThenCheckOut` | server/src/routes/attendance.ts:146-153 | A second create without check-in but with check-out keeps the first check-in, takes the new check-out, keeps the name, and adds no row |
| `Properties.MergeWithoutStatusResets` | server/src/routes/attendance.ts:149 | A merge whose body leaves the status out sets the stored status to `present` |
| `Properties.CreateIdempotentMerge` | server/src/routes/attendance.ts:146-153 | Repeating a create for a key that was already taken leaves the table as the first merge left it |
| `Properties.CreateIdempotentInsert` | server/src/routes/attendance.ts:142-165 | Repeating a create that inserted a new key merges that row into itself and changes nothing |
| `Properties.CreateIdempotent` | server/src/routes/attendance.ts:142-165 | Repeating a create leaves the table exactly as the first one did |
| `Properties.DeleteUndoesInsert` | server/src/routes/attendance.ts:326-337 | Deleting the row a create just inserted restores the previous rows |
| `Properties.UpdateIdempotent` | server/src/routes/attendance.ts:244-284 | Repeating an update leaves the table exactly as the first one did |
| `Properties.UpdateKeepsKeys` | server/src/routes/attendance.ts:244-271 | An update never changes the set of (employeeId, date) keys in the table |
| `Properties.DeleteRemovesOneKey` | server/src/routes/attendance.ts:337 | A delete removes exactly the deleted row's key from the key set |
| `Properties.FirstCheckInDefaults` | server/src/routes/attendance.ts:16 | A first create for E1 on 2024-01-10 with no status or times stores one row with status `present` and no check-in |
| `Properties.CheckOutNeedsEmployeeName` | server/src/routes/attendance.ts:12 | A check-out POST without the employee name is refused for that field alone, on any table, with no write |

## Findings

| source | as written | input that shows it | evidently intended | confidence | as-written member | corrected member |
|---|---|---|---|---|---|---|
| server/src/routes/attendance.ts:364-389 | The guard refuses any request without `registeredFace`, so the branch that reads the stored face from the employees table never runs | employeeId "E1", no registeredFace, capturedFace "captured", with E1's stored face "registered": answered 400 | Require only employeeId and capturedFace, and compare a missing registered face against the stored one (404 for an unknown employee, 400 when none is stored) | medium; not executed | `Faces.StoredFaceNeverUsed` | `Faces.IntendedFallsBackToStoredFace` |

## Left out

- `Records.Valid` requires every row to be well formed: a non-empty employee id and name, a date and times that match the patterns, and no empty string in a nullable column. The database enforces none of these. They hold only because the model takes these handlers to be the only writers of the table.
- Requests are modelled one at a time, each applied atomically to the table. Interleavings of concurrent requests are not modelled, such as a DELETE landing between a create's upsert and its read-back.
- SQL text, the connection pool and driver are not modelled. The table is a map plus an auto-increment counter. A merge is assumed not to advance the counter, though some storage engines do advance it.
- The CREATE/UPDATE label of the audit entry (lines 167-189) is not modelled. It is inferred from the driver's `insertId`/`affectedRows`, which the model cannot see. Whether a create inserts or merges is `Store.KeyTaken`.
- `logActivity` and `getClientIp` are not modelled. They are external audit I/O and do not affect the table.
- The face comparison itself (`compareFaces`) is an external function parameter, `Faces.Comparator`.
- Faces.StoredFace: a truthy employee id that is not a string, such as the JSON number 5, is answered as an unknown employee. The database would compare it with the string column numerically and could find employee "5". Only the corrected handler reaches this lookup.
- `created_at`/`updated_at` are not modelled. They are database clock values.
- The secondary `check_in DESC` ordering is not modelled. Its NULL placement is defined by the database, so rows with equal dates come back in no promised order.
- Database collation is not modelled. Keys and filters compare strings exactly, while a case-insensitive collation could treat "e1" and "E1" as one key.
- Database type coercion is not modelled: a DATE column refusing "2024-13-45", or a malformed range filter being converted to a date. Date filters compare strings.
- Records.ToView: the id comes back as a number, not as the decimal string `String(row.id)`.
- The `:id` path parameter is a number. Its string-to-integer conversion by the database is not modelled.
- A non-object request body is not modelled. zod refuses it with a form-level rather than field-level error.
- Every database failure that yields a 500 response is not modelled. `Store.Create` proves that the read-back after a save cannot miss when the create runs alone. The 500 at lines 203-205 can only arise from an interleaved request, which is not modelled.
- Schemas.ParseUpdate: follows zod 3 parsing, where `.partial()` wraps the status's `.default('present')` in an optional that returns `undefined` first, so an update without a status leaves the status alone. The zod version is not fixed by the modelled files. Under zod 4, defaults inside optional fields are applied, so every valid update would set the status to `present` and the "No fields to update" refusal at line 273 could never fire.
- `src/lib/documentTemplates.ts` is not part of this model. It is HTML templating with locale-dependent date formatting and the current time.
- `src/pages/EmployeeDashboard.tsx` is not part of this model. It is React rendering, fetch wiring and fixture-data fallback.

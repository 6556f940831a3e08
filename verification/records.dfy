/**
 * The attendance table: one row per (employee, day), keyed by a
 * server-assigned numeric id, and the JSON view of a row that every
 * handler returns.
 */
module Records {
  import opened Wrappers
  import opened Formats

  datatype Status = Present | Absent | Late | HalfDay | Leave

  /** The wire spelling of a status. */
  function StatusName(st: Status): string {
    match st
    case Present => "present"
    case Absent => "absent"
    case Late => "late"
    case HalfDay => "half-day"
    case Leave => "leave"
  }

  /** Membership in the five-value enum; anything else is not a status. */
  function ParseStatus(s: string): (r: Option<Status>)
    ensures r.Some? ==> StatusName(r.value) == s
  {
    if s == "present" then Some(Present)
    else if s == "absent" then Some(Absent)
    else if s == "late" then Some(Late)
    else if s == "half-day" then Some(HalfDay)
    else if s == "leave" then Some(Leave)
    else None
  }

  lemma ParseStatusName(st: Status)
    ensures ParseStatus(StatusName(st)) == Some(st)
  {
  }

  /**
   * One stored row. The nullable columns are `Option`s; `None` is SQL
   * NULL. The server-managed timestamps are not part of the model.
   */
  datatype Record = Record(
    employeeId: string,
    employeeName: string,
    date: string,
    checkIn: Option<string>,
    checkOut: Option<string>,
    status: Status,
    notes: Option<string>,
    checkInImage: Option<string>,
    checkOutImage: Option<string>)

  /** A row as the handlers return it; `None` is a field left `undefined`. */
  datatype View = View(
    id: nat,
    employeeId: string,
    employeeName: string,
    date: string,
    checkIn: Option<string>,
    checkOut: Option<string>,
    status: Status,
    notes: Option<string>,
    checkInImage: Option<string>,
    checkOutImage: Option<string>)

  /** JavaScript `value || undefined` on a nullable string column. */
  function OrUndefined(v: Option<string>): Option<string> {
    if v.Some? && v.value != "" then v else None
  }

  /** No nullable column holds the empty string: the handlers write `value || null`. */
  predicate NonBlank(v: Option<string>) {
    v.None? || v.value != ""
  }

  /** The row mapper: blank and NULL optional columns both come back absent. */
  function ToView(id: nat, r: Record): (v: View)
    ensures v.id == id && v.status == r.status
    ensures v.employeeId == r.employeeId && v.employeeName == r.employeeName && v.date == r.date
    ensures NonBlank(v.checkIn) && NonBlank(v.checkOut) && NonBlank(v.notes)
    ensures NonBlank(v.checkInImage) && NonBlank(v.checkOutImage)
    ensures v.checkIn.Some? ==> v.checkIn == r.checkIn
    ensures v.checkOut.Some? ==> v.checkOut == r.checkOut
    ensures v.notes.Some? ==> v.notes == r.notes
    ensures v.checkInImage.Some? ==> v.checkInImage == r.checkInImage
    ensures v.checkOutImage.Some? ==> v.checkOutImage == r.checkOutImage
    ensures NonBlank(r.checkIn) ==> v.checkIn == r.checkIn
    ensures NonBlank(r.checkOut) ==> v.checkOut == r.checkOut
    ensures NonBlank(r.notes) ==> v.notes == r.notes
    ensures NonBlank(r.checkInImage) ==> v.checkInImage == r.checkInImage
    ensures NonBlank(r.checkOutImage) ==> v.checkOutImage == r.checkOutImage
  {
    View(id, r.employeeId, r.employeeName, r.date,
         OrUndefined(r.checkIn), OrUndefined(r.checkOut), r.status, OrUndefined(r.notes),
         OrUndefined(r.checkInImage), OrUndefined(r.checkOutImage))
  }

  /** The stored row a view shows. */
  function RecordOf(v: View): Record {
    Record(v.employeeId, v.employeeName, v.date, v.checkIn, v.checkOut,
           v.status, v.notes, v.checkInImage, v.checkOutImage)
  }

  /** What every row written through the handlers satisfies. */
  predicate WellFormed(r: Record) {
    && r.employeeId != ""
    && r.employeeName != ""
    && IsDate(r.date)
    && (r.checkIn.Some? ==> IsTime(r.checkIn.value))
    && (r.checkOut.Some? ==> IsTime(r.checkOut.value))
    && NonBlank(r.notes) && NonBlank(r.checkInImage) && NonBlank(r.checkOutImage)
  }

  /** For a well-formed row the view loses nothing: reading it back gives the row. */
  lemma ViewRoundTrip(id: nat, r: Record)
    requires WellFormed(r)
    ensures RecordOf(ToView(id, r)) == r
  {
  }

  predicate HasKey(r: Record, employeeId: string, date: string) {
    r.employeeId == employeeId && r.date == date
  }

  /** The table's unique key on (employee_id, date). */
  predicate UniqueKeys(rows: map<nat, Record>) {
    forall i, j :: i in rows && j in rows && HasKey(rows[j], rows[i].employeeId, rows[i].date) ==> i == j
  }

  /** The table together with the next value of its auto-increment counter. */
  datatype Table = Table(rows: map<nat, Record>, nextId: nat)

  /**
   * Ids are positive and below the counter, the (employee, date) key is
   * unique, and every row is well formed.
   */
  predicate Valid(t: Table) {
    && t.nextId > 0
    && (forall id :: id in t.rows ==> 0 < id < t.nextId)
    && UniqueKeys(t.rows)
    && (forall id :: id in t.rows ==> WellFormed(t.rows[id]))
  }

  /** The view is the row stored under its id. */
  predicate Shows(t: Table, v: View) {
    v.id in t.rows && RecordOf(v) == t.rows[v.id]
  }

  function EmptyTable(): (t: Table)
    ensures Valid(t) && |t.rows| == 0
  {
    Table(map[], 1)
  }

  /** `SELECT id ... WHERE employee_id = ? AND date = ?` on a table with the unique key. */
  function FindKey(rows: map<nat, Record>, employeeId: string, date: string): (r: Option<nat>)
    requires UniqueKeys(rows)
    ensures r.Some? ==> r.value in rows && HasKey(rows[r.value], employeeId, date)
    ensures r.None? ==> forall id :: id in rows ==> !HasKey(rows[id], employeeId, date)
  {
    if exists id :: id in rows && HasKey(rows[id], employeeId, date) then
      var id :| id in rows && HasKey(rows[id], employeeId, date);
      Some(id)
    else
      None
  }
}

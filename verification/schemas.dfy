/**
 * Validation of attendance request bodies: the create schema, and the
 * update schema derived from it by making every field optional and then
 * requiring `employeeId` and `date` again.
 */
module Schemas {
  import opened Wrappers
  import opened Formats
  import opened Records

  /**
   * One key of a JSON body: left out (`undefined`), `null`, a string, or
   * some other JSON value, with its JavaScript truthiness.
   */
  datatype Field = Missing | Null | Str(value: string) | Other(truthy: bool)

  /** The keys the schemas validate; a refusal reports the set of keys at fault. */
  datatype FieldName =
    | EmployeeIdField | EmployeeNameField | DateField
    | CheckInField | CheckOutField | StatusField
    | NotesField | CheckInImageField | CheckOutImageField

  const AllFields: seq<FieldName> := [
    EmployeeIdField, EmployeeNameField, DateField,
    CheckInField, CheckOutField, StatusField,
    NotesField, CheckInImageField, CheckOutImageField]

  /** A request body as the handlers receive it. */
  datatype Body = Body(
    employeeId: Field,
    employeeName: Field,
    date: Field,
    checkIn: Field,
    checkOut: Field,
    status: Field,
    notes: Field,
    checkInImage: Field,
    checkOutImage: Field)

  datatype Schema = CreateSchema | UpdateSchema

  /** `z.string().min(1)` */
  predicate NonEmptyString(f: Field) {
    f.Str? && f.value != ""
  }

  /** `z.string().regex(/^\d{4}-\d{2}-\d{2}$/)` */
  predicate DateString(f: Field) {
    f.Str? && IsDate(f.value)
  }

  /** `z.string().regex(/^\d{2}:\d{2}$/).optional().nullable()` */
  predicate OptionalTime(f: Field) {
    f.Missing? || f.Null? || (f.Str? && IsTime(f.value))
  }

  /** `z.string().optional().nullable()` */
  predicate OptionalString(f: Field) {
    f.Missing? || f.Null? || f.Str?
  }

  /** `z.enum([...]).default('present')`: left out is allowed, `null` is not. */
  predicate StatusOrDefault(f: Field) {
    f.Missing? || (f.Str? && ParseStatus(f.value).Some?)
  }

  /** Whether `schema` accepts key `n` of `b`. Only the employee name differs between the two schemas. */
  predicate Accepts(schema: Schema, b: Body, n: FieldName) {
    match n
    case EmployeeIdField => NonEmptyString(b.employeeId)
    case EmployeeNameField =>
      if schema == CreateSchema then NonEmptyString(b.employeeName)
      else b.employeeName.Missing? || NonEmptyString(b.employeeName)
    case DateField => DateString(b.date)
    case CheckInField => OptionalTime(b.checkIn)
    case CheckOutField => OptionalTime(b.checkOut)
    case StatusField => StatusOrDefault(b.status)
    case NotesField => OptionalString(b.notes)
    case CheckInImageField => OptionalString(b.checkInImage)
    case CheckOutImageField => OptionalString(b.checkOutImage)
  }

  lemma AllFieldsListed(n: FieldName)
    ensures n in AllFields
  {
  }

  /** The keys `schema` refuses in `b`. */
  function Refused(schema: Schema, b: Body): (errs: set<FieldName>)
    ensures forall n :: n in errs <==> !Accepts(schema, b, n)
  {
    forall n ensures n in AllFields { AllFieldsListed(n); }
    set n | n in AllFields && !Accepts(schema, b, n)
  }

  /** JavaScript `value || null` on a key the schema accepted. */
  function OrNull(f: Field): (v: Option<string>)
    ensures NonBlank(v)
    ensures v.Some? <==> f.Str? && f.value != ""
    ensures v.Some? ==> v.value == f.value
  {
    if f.Str? && f.value != "" then Some(f.value) else None
  }

  /** The status of an accepted create body: the given one, or `present` when left out. */
  function StatusOf(f: Field): (st: Status)
    requires StatusOrDefault(f)
    ensures f.Missing? ==> st == Present
    ensures f.Str? ==> StatusName(st) == f.value
  {
    if f.Missing? then Present else ParseStatus(f.value).value
  }

  /** The row's status is the one the body names, or `present` when the body leaves it out. */
  predicate StatusFrom(f: Field, st: Status) {
    (f.Missing? && st == Present) || f == Str(StatusName(st))
  }

  /** A nullable column after an insert: the body's value when non-empty, NULL otherwise. */
  predicate InsertedValue(f: Field, v: Option<string>) {
    if f.Str? && f.value != "" then v == Some(f.value) else v.None?
  }

  /** The row a create writes carries exactly what the body supplied. */
  predicate InsertedFrom(b: Body, r: Record) {
    && Str(r.employeeId) == b.employeeId
    && Str(r.employeeName) == b.employeeName
    && Str(r.date) == b.date
    && StatusFrom(b.status, r.status)
    && InsertedValue(b.checkIn, r.checkIn)
    && InsertedValue(b.checkOut, r.checkOut)
    && InsertedValue(b.notes, r.notes)
    && InsertedValue(b.checkInImage, r.checkInImage)
    && InsertedValue(b.checkOutImage, r.checkOutImage)
  }

  /**
   * `attendanceSchema.safeParse` followed by the `|| null` applied to the
   * insert's parameters: either the refused keys, or the row to insert.
   */
  function ParseCreate(b: Body): (r: Result<Record, set<FieldName>>)
    ensures r.Failure? <==> exists n :: !Accepts(CreateSchema, b, n)
    ensures r.Failure? ==> r.error != {} && forall n :: n in r.error <==> !Accepts(CreateSchema, b, n)
    ensures r.Success? ==> WellFormed(r.value) && InsertedFrom(b, r.value)
  {
    var errs := Refused(CreateSchema, b);
    if errs != {} then
      Failure(errs)
    else
      assert Accepts(CreateSchema, b, EmployeeIdField) && Accepts(CreateSchema, b, EmployeeNameField);
      assert Accepts(CreateSchema, b, DateField) && Accepts(CreateSchema, b, StatusField);
      assert Accepts(CreateSchema, b, CheckInField) && Accepts(CreateSchema, b, CheckOutField);
      Success(Record(
        b.employeeId.value, b.employeeName.value, b.date.value,
        OrNull(b.checkIn), OrNull(b.checkOut), StatusOf(b.status),
        OrNull(b.notes), OrNull(b.checkInImage), OrNull(b.checkOutImage)))
  }

  /**
   * The columns an update sets. `None` leaves a column alone; for a
   * nullable column `Some(None)` sets it to NULL.
   */
  datatype Patch = Patch(
    employeeName: Option<string>,
    checkIn: Option<Option<string>>,
    checkOut: Option<Option<string>>,
    status: Option<Status>,
    notes: Option<Option<string>>,
    checkInImage: Option<Option<string>>,
    checkOutImage: Option<Option<string>>)
  {
    /** Only values the update schema lets through. */
    predicate Fits() {
      && (employeeName.Some? ==> employeeName.value != "")
      && (checkIn.Some? && checkIn.value.Some? ==> IsTime(checkIn.value.value))
      && (checkOut.Some? && checkOut.value.Some? ==> IsTime(checkOut.value.value))
      && (notes.Some? ==> NonBlank(notes.value))
      && (checkInImage.Some? ==> NonBlank(checkInImage.value))
      && (checkOutImage.Some? ==> NonBlank(checkOutImage.value))
    }

    /** `UPDATE attendance SET <supplied columns> WHERE id = ?` on one row. */
    function Apply(r: Record): (r': Record)
      requires Fits()
      ensures WellFormed(r) ==> WellFormed(r')
      ensures r'.employeeId == r.employeeId && r'.date == r.date
    {
      r.(
        employeeName := employeeName.GetOr(r.employeeName),
        checkIn := checkIn.GetOr(r.checkIn),
        checkOut := checkOut.GetOr(r.checkOut),
        status := status.GetOr(r.status),
        notes := notes.GetOr(r.notes),
        checkInImage := checkInImage.GetOr(r.checkInImage),
        checkOutImage := checkOutImage.GetOr(r.checkOutImage))
    }

    /** No column to set: the update is refused as a no-op. */
    predicate IsEmpty() {
      && employeeName.None? && checkIn.None? && checkOut.None? && status.None?
      && notes.None? && checkInImage.None? && checkOutImage.None?
    }
  }

  /** A nullable column is set when its key is present at all, `null` included. */
  function SetNullable(f: Field): Option<Option<string>> {
    if f.Missing? then None else Some(OrNull(f))
  }

  /** None of the seven updatable keys is present in the body. */
  predicate NothingToUpdate(b: Body) {
    && b.employeeName.Missing? && b.checkIn.Missing? && b.checkOut.Missing?
    && b.status.Missing? && b.notes.Missing?
    && b.checkInImage.Missing? && b.checkOutImage.Missing?
  }

  /** A nullable column after an update: kept when the key is left out, otherwise set, with `null` and `""` clearing it. */
  predicate PatchedValue(stored: Option<string>, f: Field, v: Option<string>) {
    if f.Missing? then v == stored
    else if f.Str? && f.value != "" then v == Some(f.value)
    else v.None?
  }

  /** The row an update leaves behind: the key never changes, and only the supplied columns do. */
  predicate PatchedFrom(stored: Record, b: Body, r: Record) {
    && r.employeeId == stored.employeeId
    && r.date == stored.date
    && (if b.employeeName.Missing? then r.employeeName == stored.employeeName
        else b.employeeName == Str(r.employeeName))
    && (if b.status.Missing? then r.status == stored.status
        else b.status == Str(StatusName(r.status)))
    && PatchedValue(stored.checkIn, b.checkIn, r.checkIn)
    && PatchedValue(stored.checkOut, b.checkOut, r.checkOut)
    && PatchedValue(stored.notes, b.notes, r.notes)
    && PatchedValue(stored.checkInImage, b.checkInImage, r.checkInImage)
    && PatchedValue(stored.checkOutImage, b.checkOutImage, r.checkOutImage)
  }

  /** The `!== undefined` tests that choose the columns to set, on a body the schema accepted. */
  function PatchOf(b: Body): (p: Patch)
    requires forall n :: Accepts(UpdateSchema, b, n)
    ensures p.Fits()
    ensures p.IsEmpty() <==> NothingToUpdate(b)
    ensures forall rec :: PatchedFrom(rec, b, p.Apply(rec))
  {
    assert Accepts(UpdateSchema, b, EmployeeNameField) && Accepts(UpdateSchema, b, StatusField);
    assert Accepts(UpdateSchema, b, CheckInField) && Accepts(UpdateSchema, b, CheckOutField);
    Patch(
      if b.employeeName.Missing? then None else Some(b.employeeName.value),
      SetNullable(b.checkIn), SetNullable(b.checkOut),
      if b.status.Missing? then None else Some(ParseStatus(b.status.value).value),
      SetNullable(b.notes), SetNullable(b.checkInImage), SetNullable(b.checkOutImage))
  }

  /**
   * `updateAttendanceSchema.safeParse` followed by the choice of columns
   * to set. The body's `employeeId` and `date` are checked but never
   * become part of the patch.
   */
  function ParseUpdate(b: Body): (r: Result<Patch, set<FieldName>>)
    ensures r.Failure? <==> exists n :: !Accepts(UpdateSchema, b, n)
    ensures r.Failure? ==> r.error != {} && forall n :: n in r.error <==> !Accepts(UpdateSchema, b, n)
    ensures r.Success? ==> r.value.Fits()
    ensures r.Success? ==> (r.value.IsEmpty() <==> NothingToUpdate(b))
    ensures r.Success? ==> forall rec :: PatchedFrom(rec, b, r.value.Apply(rec))
  {
    var errs := Refused(UpdateSchema, b);
    if errs != {} then Failure(errs) else Success(PatchOf(b))
  }
}

/**
 * The state semantics of the attendance handlers that read one row or
 * change the table: get by id, create-or-merge, partial update by id and
 * delete by id. Each takes the table and the request and returns the
 * response together with the table after the request.
 */
module Store {
  import opened Wrappers
  import opened Records
  import opened Schemas

  datatype Refusal = InvalidBody(fields: set<FieldName>) | NoFieldsToUpdate

  datatype Response =
    | Created(row: View)             // 201
    | Found(row: View)               // 200
    | Updated(row: View)             // 200
    | Deleted                        // 200
    | BadRequest(refusal: Refusal)   // 400
    | NotFound                       // 404
    | ServerError                    // 500

  /** A stored row has the key a request body names. */
  predicate MatchesBody(r: Record, b: Body) {
    Str(r.employeeId) == b.employeeId && Str(r.date) == b.date
  }

  predicate KeyTaken(t: Table, b: Body) {
    exists id :: id in t.rows && MatchesBody(t.rows[id], b)
  }

  /** Every row other than `id` is where it was, with the same contents. */
  predicate OthersUnchanged(t: Table, t': Table, id: nat) {
    forall k :: k in t.rows && k != id ==> k in t'.rows && t'.rows[k] == t.rows[k]
  }

  /** GET `/:id`. */
  function Get(t: Table, id: nat): (r: Response)
    requires Valid(t)
    ensures r.Found? || r.NotFound?
    ensures r.Found? <==> id in t.rows
    ensures r.Found? ==> r.row.id == id && Shows(t, r.row)
  {
    if id in t.rows then
      ViewRoundTrip(id, t.rows[id]);
      Found(ToView(id, t.rows[id]))
    else
      NotFound
  }

  /** SQL `COALESCE(VALUES(col), col)`. */
  function Coalesce(incoming: Option<string>, existing: Option<string>): Option<string> {
    if incoming.Some? then incoming else existing
  }

  /**
   * The `ON DUPLICATE KEY UPDATE` clause: the nullable columns are
   * coalesced, the status is overwritten, and the key and employee name
   * keep their stored values.
   */
  function Merge(existing: Record, incoming: Record): Record {
    existing.(
      checkIn := Coalesce(incoming.checkIn, existing.checkIn),
      checkOut := Coalesce(incoming.checkOut, existing.checkOut),
      status := incoming.status,
      notes := Coalesce(incoming.notes, existing.notes),
      checkInImage := Coalesce(incoming.checkInImage, existing.checkInImage),
      checkOutImage := Coalesce(incoming.checkOutImage, existing.checkOutImage))
  }

  /** A nullable column after a merge: the body's value when non-empty, the stored one otherwise. */
  predicate MergedValue(stored: Option<string>, f: Field, v: Option<string>) {
    if f.Str? && f.value != "" then v == Some(f.value) else v == stored
  }

  /** The row a create leaves behind for a key that was already present. */
  predicate MergedFrom(stored: Record, b: Body, r: Record) {
    && r.employeeId == stored.employeeId
    && r.employeeName == stored.employeeName
    && r.date == stored.date
    && StatusFrom(b.status, r.status)
    && MergedValue(stored.checkIn, b.checkIn, r.checkIn)
    && MergedValue(stored.checkOut, b.checkOut, r.checkOut)
    && MergedValue(stored.notes, b.notes, r.notes)
    && MergedValue(stored.checkInImage, b.checkInImage, r.checkInImage)
    && MergedValue(stored.checkOutImage, b.checkOutImage, r.checkOutImage)
  }

  /** A merge keeps the key and never writes a malformed value. */
  lemma MergeWellFormed(existing: Record, incoming: Record)
    requires WellFormed(existing) && WellFormed(incoming)
    ensures WellFormed(Merge(existing, incoming))
    ensures HasKey(Merge(existing, incoming), existing.employeeId, existing.date)
  {
  }

  /** Writing a row under `id` that keeps the key of the row it replaces, or takes an unused key, keeps the table valid. */
  lemma WriteKeepsValid(t: Table, id: nat, r: Record, nextId: nat)
    requires Valid(t) && WellFormed(r) && 0 < id < nextId && t.nextId <= nextId
    requires forall k :: k in t.rows && k != id ==> !HasKey(t.rows[k], r.employeeId, r.date)
    ensures Valid(Table(t.rows[id := r], nextId))
  {
  }

  /** `INSERT ... ON DUPLICATE KEY UPDATE` of a validated row. */
  function Upsert(t: Table, rec: Record): (t': Table)
    requires Valid(t) && WellFormed(rec)
    ensures Valid(t')
    ensures FindKey(t.rows, rec.employeeId, rec.date).None? ==>
      t.nextId !in t.rows && t' == Table(t.rows[t.nextId := rec], t.nextId + 1)
    ensures FindKey(t.rows, rec.employeeId, rec.date).Some? ==>
      var id := FindKey(t.rows, rec.employeeId, rec.date).value;
      t' == Table(t.rows[id := Merge(t.rows[id], rec)], t.nextId)
    ensures FindKey(t'.rows, rec.employeeId, rec.date).Some?
  {
    match FindKey(t.rows, rec.employeeId, rec.date)
    case None =>
      var t' := Table(t.rows[t.nextId := rec], t.nextId + 1);
      WriteKeepsValid(t, t.nextId, rec, t.nextId + 1);
      assert HasKey(t'.rows[t.nextId], rec.employeeId, rec.date);
      t'
    case Some(id) =>
      var t' := Table(t.rows[id := Merge(t.rows[id], rec)], t.nextId);
      MergeWellFormed(t.rows[id], rec);
      WriteKeepsValid(t, id, Merge(t.rows[id], rec), t.nextId);
      assert HasKey(t'.rows[id], rec.employeeId, rec.date);
      t'
  }

  /**
   * POST `/`: validate, upsert on (employeeId, date), then read back the
   * row stored under that key. The read-back cannot miss, so the
   * handler's 500 branch is never taken.
   */
  function Create(t: Table, b: Body): (res: (Response, Table))
    requires Valid(t)
    ensures Valid(res.1)
    ensures res.0.Created? || res.0.BadRequest?
    ensures res.0.BadRequest? <==> exists n :: !Accepts(CreateSchema, b, n)
    ensures res.0.BadRequest? ==> res.0.refusal == InvalidBody(Refused(CreateSchema, b)) && res.1 == t
    ensures res.0.Created? ==> Shows(res.1, res.0.row) && MatchesBody(res.1.rows[res.0.row.id], b)
  {
    match ParseCreate(b)
    case Failure(errs) => (BadRequest(InvalidBody(errs)), t)
    case Success(rec) =>
      var t' := Upsert(t, rec);
      match FindKey(t'.rows, rec.employeeId, rec.date)
      case None => (ServerError, t')
      case Some(id) =>
        ViewRoundTrip(id, t'.rows[id]);
        (Created(ToView(id, t'.rows[id])), t')
  }

  /** Coalescing a parsed row into a stored one is what the body asks of a merge. */
  lemma MergeFollowsBody(stored: Record, b: Body, rec: Record)
    requires InsertedFrom(b, rec)
    ensures MergedFrom(stored, b, Merge(stored, rec))
  {
  }

  /**
   * An accepted create for a key not yet in the table adds exactly one
   * row, under the next auto-increment id, carrying what the body
   * supplied; every existing row stays as it was.
   */
  lemma CreateInsertsNewKey(t: Table, b: Body)
    requires Valid(t) && !KeyTaken(t, b)
    requires forall n :: Accepts(CreateSchema, b, n)
    ensures var (resp, t') := Create(t, b);
      && resp.Created?
      && resp.row.id == t.nextId
      && resp.row.id !in t.rows
      && t'.rows == t.rows[resp.row.id := t'.rows[resp.row.id]]
      && |t'.rows| == |t.rows| + 1
      && t'.nextId == t.nextId + 1
      && InsertedFrom(b, t'.rows[resp.row.id])
  {
    var rec := ParseCreate(b).value;
    forall k | k in t.rows
      ensures !HasKey(t.rows[k], rec.employeeId, rec.date)
    {
      assert !MatchesBody(t.rows[k], b);
    }
    var t' := Upsert(t, rec);
    assert t'.rows[t.nextId] == rec;
    assert HasKey(t'.rows[t.nextId], rec.employeeId, rec.date);
  }

  /**
   * An accepted create for a key already stored under `id` merges into
   * that row: the row count and every other row stay as they were, the
   * nullable columns are replaced only by non-empty values, the status is
   * overwritten, and the employee name is kept.
   */
  lemma CreateMergesTakenKey(t: Table, b: Body, id: nat)
    requires Valid(t) && id in t.rows && MatchesBody(t.rows[id], b)
    requires forall n :: Accepts(CreateSchema, b, n)
    ensures var (resp, t') := Create(t, b);
      && resp.Created?
      && resp.row.id == id
      && t'.rows == t.rows[id := t'.rows[id]]
      && |t'.rows| == |t.rows|
      && t'.nextId == t.nextId
      && MergedFrom(t.rows[id], b, t'.rows[id])
  {
    var rec := ParseCreate(b).value;
    assert HasKey(t.rows[id], rec.employeeId, rec.date);
    assert FindKey(t.rows, rec.employeeId, rec.date) == Some(id);
    var t' := Upsert(t, rec);
    assert HasKey(t'.rows[id], rec.employeeId, rec.date);
    assert FindKey(t'.rows, rec.employeeId, rec.date) == Some(id);
    MergeFollowsBody(t.rows[id], b, rec);
  }

  /**
   * PUT `/:id`: validate, refuse an update with no column to set, run the
   * update (a no-op when the id is absent), then read the row back.
   */
  function Update(t: Table, id: nat, b: Body): (res: (Response, Table))
    requires Valid(t)
    ensures Valid(res.1)
    ensures res.0.Updated? || res.0.BadRequest? || res.0.NotFound?
    ensures (exists n :: !Accepts(UpdateSchema, b, n)) ==>
      res.0 == BadRequest(InvalidBody(Refused(UpdateSchema, b))) && res.1 == t
    ensures (forall n :: Accepts(UpdateSchema, b, n)) && NothingToUpdate(b) ==>
      res.0 == BadRequest(NoFieldsToUpdate) && res.1 == t
    ensures res.0.BadRequest? ==> res.1 == t
    ensures res.0.BadRequest? ==> (exists n :: !Accepts(UpdateSchema, b, n)) || NothingToUpdate(b)
    ensures (forall n :: Accepts(UpdateSchema, b, n)) && !NothingToUpdate(b) && id in t.rows ==> res.0.Updated?
    ensures res.0.NotFound? <==> (forall n :: Accepts(UpdateSchema, b, n)) && !NothingToUpdate(b) && id !in t.rows
    ensures res.0.NotFound? ==> res.1 == t
    ensures res.0.Updated? ==>
      && id in t.rows
      && res.0.row.id == id
      && Shows(res.1, res.0.row)
      && res.1 == Table(t.rows[id := res.1.rows[id]], t.nextId)
      && PatchedFrom(t.rows[id], b, res.1.rows[id])
  {
    match ParseUpdate(b)
    case Failure(errs) => (BadRequest(InvalidBody(errs)), t)
    case Success(p) =>
      if p.IsEmpty() then
        (BadRequest(NoFieldsToUpdate), t)
      else if id !in t.rows then
        (NotFound, t)
      else
        var r := p.Apply(t.rows[id]);
        var t' := Table(t.rows[id := r], t.nextId);
        WriteKeepsValid(t, id, r, t.nextId);
        ViewRoundTrip(id, r);
        (Updated(ToView(id, r)), t')
  }

  /** DELETE `/:id`: look the row up first, then remove it. */
  function Delete(t: Table, id: nat): (res: (Response, Table))
    requires Valid(t)
    ensures Valid(res.1)
    ensures res.0.Deleted? || res.0.NotFound?
    ensures res.0.NotFound? <==> id !in t.rows
    ensures res.0.NotFound? ==> res.1 == t
    ensures res.0.Deleted? ==>
      && res.1.rows.Keys == t.rows.Keys - {id}
      && |res.1.rows| == |t.rows| - 1
      && res.1.nextId == t.nextId
      && OthersUnchanged(t, res.1, id)
  {
    if id !in t.rows then (NotFound, t)
    else (Deleted, Table(t.rows - {id}, t.nextId))
  }
}

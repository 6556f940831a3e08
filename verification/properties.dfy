/**
 * Properties that relate several requests: a create read back by id, two
 * creates for the same key, a create undone by a delete, repeated
 * updates, and the key set that updates and deletes cannot disturb.
 */
module Properties {
  import opened Wrappers
  import opened Records
  import opened Schemas
  import opened Store

  /** A body names at most one status. */
  lemma StatusFromUnique(f: Field, s: Status, s': Status)
    requires StatusFrom(f, s) && StatusFrom(f, s')
    ensures s == s'
  {
    if f.Str? {
      ParseStatusName(s);
      ParseStatusName(s');
    }
  }

  /** Merging the same body again changes nothing. */
  lemma MergedTwice(stored: Record, b: Body, r: Record, r': Record)
    requires MergedFrom(stored, b, r) && MergedFrom(r, b, r')
    ensures r' == r
  {
    StatusFromUnique(b.status, r.status, r'.status);
  }

  /** Merging a body into the row that body inserted changes nothing. */
  lemma MergedAfterInsert(b: Body, r: Record, r': Record)
    requires InsertedFrom(b, r) && MergedFrom(r, b, r')
    ensures r' == r
  {
    StatusFromUnique(b.status, r.status, r'.status);
  }

  /** Patching with the same body again changes nothing. */
  lemma PatchedTwice(stored: Record, b: Body, r: Record, r': Record)
    requires PatchedFrom(stored, b, r) && PatchedFrom(r, b, r')
    ensures r' == r
  {
    if !b.status.Missing? {
      ParseStatusName(r.status);
      ParseStatusName(r'.status);
    }
  }

  /** A create for a new key is found by id afterwards, with status `present` unless the body named one. */
  lemma CreateThenGet(t: Table, b: Body)
    requires Valid(t) && !KeyTaken(t, b)
    requires forall n :: Accepts(CreateSchema, b, n)
    ensures var (resp, t') := Create(t, b);
      && resp.Created?
      && Get(t', resp.row.id) == Found(resp.row)
      && (b.status.Missing? ==> resp.row.status == Present)
      && Str(resp.row.employeeName) == b.employeeName
  {
    CreateInsertsNewKey(t, b);
  }

  /**
   * Two creates for one key, the second leaving check-in out and giving a
   * check-out: the row keeps the first check-in and takes the second
   * check-out, and there is still one row for the key.
   */
  lemma CheckInThenCheckOut(t: Table, first: Body, second: Body)
    requires Valid(t) && !KeyTaken(t, first)
    requires forall n :: Accepts(CreateSchema, first, n)
    requires forall n :: Accepts(CreateSchema, second, n)
    requires second.employeeId == first.employeeId && second.date == first.date
    requires second.checkIn.Missing? && second.checkOut.Str? && second.checkOut.value != ""
    ensures var (r1, t1) := Create(t, first);
      var (r2, t2) := Create(t1, second);
      && r1.Created? && r2.Created? && r2.row.id == r1.row.id
      && |t2.rows| == |t.rows| + 1
      && t2.rows[r2.row.id].checkIn == t1.rows[r1.row.id].checkIn
      && t2.rows[r2.row.id].checkOut == Some(second.checkOut.value)
      && t2.rows[r2.row.id].employeeName == t1.rows[r1.row.id].employeeName
  {
    CreateInsertsNewKey(t, first);
    var (r1, t1) := Create(t, first);
    CreateMergesTakenKey(t1, second, r1.row.id);
  }

  /** A merge always overwrites the status, so a body without one resets the row to `present`. */
  lemma MergeWithoutStatusResets(t: Table, b: Body, id: nat)
    requires Valid(t) && id in t.rows && MatchesBody(t.rows[id], b)
    requires forall n :: Accepts(CreateSchema, b, n)
    requires b.status.Missing?
    ensures Create(t, b).1.rows[id].status == Present
  {
    CreateMergesTakenKey(t, b, id);
  }

  /** Repeating a create for a key that was already taken changes nothing more. */
  lemma CreateIdempotentMerge(t: Table, b: Body, k: nat)
    requires Valid(t) && k in t.rows && MatchesBody(t.rows[k], b)
    requires forall n :: Accepts(CreateSchema, b, n)
    ensures Create(Create(t, b).1, b).1 == Create(t, b).1
  {
    CreateMergesTakenKey(t, b, k);
    var t1 := Create(t, b).1;
    CreateMergesTakenKey(t1, b, k);
    var t2 := Create(t1, b).1;
    MergedTwice(t.rows[k], b, t1.rows[k], t2.rows[k]);
    assert t2.rows == t1.rows;
  }

  /** Repeating a create that inserted a new key only merges the row it inserted. */
  lemma CreateIdempotentInsert(t: Table, b: Body)
    requires Valid(t) && !KeyTaken(t, b)
    requires forall n :: Accepts(CreateSchema, b, n)
    ensures Create(Create(t, b).1, b).1 == Create(t, b).1
  {
    CreateInsertsNewKey(t, b);
    var t1 := Create(t, b).1;
    var id := t.nextId;
    CreateMergesTakenKey(t1, b, id);
    var t2 := Create(t1, b).1;
    MergedAfterInsert(b, t1.rows[id], t2.rows[id]);
    assert t2.rows == t1.rows;
  }

  /** Repeating a create leaves the table as the first one left it. */
  lemma CreateIdempotent(t: Table, b: Body)
    requires Valid(t)
    ensures Create(Create(t, b).1, b).1 == Create(t, b).1
  {
    if forall n :: Accepts(CreateSchema, b, n) {
      if KeyTaken(t, b) {
        var k :| k in t.rows && MatchesBody(t.rows[k], b);
        CreateIdempotentMerge(t, b, k);
      } else {
        CreateIdempotentInsert(t, b);
      }
    }
  }

  /** Deleting the row a create just inserted gives back the rows there were before. */
  lemma DeleteUndoesInsert(t: Table, b: Body)
    requires Valid(t) && !KeyTaken(t, b)
    requires forall n :: Accepts(CreateSchema, b, n)
    ensures var (r1, t1) := Create(t, b);
      r1.Created? && Delete(t1, r1.row.id) == (Deleted, Table(t.rows, t.nextId + 1))
  {
    CreateInsertsNewKey(t, b);
    var (r1, t1) := Create(t, b);
    var id := r1.row.id;
    assert t1.rows - {id} == t.rows;
    assert Delete(t1, id) == (Deleted, Table(t1.rows - {id}, t1.nextId));
  }

  /** Repeating an update leaves the table as the first one left it. */
  lemma UpdateIdempotent(t: Table, id: nat, b: Body)
    requires Valid(t)
    ensures Update(Update(t, id, b).1, id, b).1 == Update(t, id, b).1
  {
    var (r1, t1) := Update(t, id, b);
    if r1.Updated? {
      var (r2, t2) := Update(t1, id, b);
      assert r2.Updated?;
      PatchedTwice(t.rows[id], b, t1.rows[id], t2.rows[id]);
      assert t2.rows == t1.rows;
    }
  }

  /** The (employeeId, date) pairs present in the table. */
  function KeyPairs(t: Table): set<(string, string)> {
    set id | id in t.rows :: (t.rows[id].employeeId, t.rows[id].date)
  }

  /** An update never moves a row to another key. */
  lemma UpdateKeepsKeys(t: Table, id: nat, b: Body)
    requires Valid(t)
    ensures KeyPairs(Update(t, id, b).1) == KeyPairs(t)
  {
    var (r, t') := Update(t, id, b);
    if r.Updated? {
      assert t'.rows.Keys == t.rows.Keys;
      forall k | k in t.rows
        ensures (t'.rows[k].employeeId, t'.rows[k].date) == (t.rows[k].employeeId, t.rows[k].date)
      {
      }
    }
  }

  /** A delete removes exactly the deleted row's key: no two rows share one. */
  lemma DeleteRemovesOneKey(t: Table, id: nat)
    requires Valid(t) && id in t.rows
    ensures KeyPairs(Delete(t, id).1) == KeyPairs(t) - {(t.rows[id].employeeId, t.rows[id].date)}
  {
    var t' := Delete(t, id).1;
    var key := (t.rows[id].employeeId, t.rows[id].date);
    forall p | p in KeyPairs(t) && p != key ensures p in KeyPairs(t') {
      var k :| k in t.rows && (t.rows[k].employeeId, t.rows[k].date) == p;
      assert k in t'.rows;
    }
    forall p | p in KeyPairs(t') ensures p in KeyPairs(t) && p != key {
      var k :| k in t'.rows && (t'.rows[k].employeeId, t'.rows[k].date) == p;
      assert k in t.rows && k != id;
      assert !HasKey(t.rows[k], t.rows[id].employeeId, t.rows[id].date);
    }
  }

  const FirstCheckIn: Body :=
    Body(Str("E1"), Str("Jane Doe"), Str("2024-01-10"), Missing, Missing, Missing, Missing, Missing, Missing)

  const CheckOutWithoutName: Body :=
    Body(Str("E1"), Missing, Str("2024-01-10"), Missing, Str("17:00"), Missing, Missing, Missing, Missing)

  /** A first check-in for E1 on 2024-01-10 is stored with status `present` and no check-in time. */
  lemma FirstCheckInDefaults()
    ensures var (r, t) := Create(EmptyTable(), FirstCheckIn);
      r.Created? && r.row.status == Present && r.row.checkIn.None? && |t.rows| == 1
  {
    var d := "2024-01-10";
    assert d[..4] == "2024" && d[5..7] == "01" && d[8..] == "10";
    assert Formats.IsDate(d);
    forall n ensures Accepts(CreateSchema, FirstCheckIn, n) {
    }
    CreateInsertsNewKey(EmptyTable(), FirstCheckIn);
  }

  /**
   * A check-out request that leaves the employee name out is refused for
   * that key alone, whatever the table holds, and the table is left as
   * it was.
   */
  lemma CheckOutNeedsEmployeeName(t: Table)
    requires Valid(t)
    ensures Create(t, CheckOutWithoutName) == (BadRequest(InvalidBody({EmployeeNameField})), t)
  {
    var d := "2024-01-10";
    assert d[..4] == "2024" && d[5..7] == "01" && d[8..] == "10";
    assert Formats.IsDate(d);
    var c := "17:00";
    assert c[..2] == "17" && c[3..] == "00";
    assert Formats.IsTime(c);
    forall n ensures Accepts(CreateSchema, CheckOutWithoutName, n) <==> n != EmployeeNameField {
    }
    assert Refused(CreateSchema, CheckOutWithoutName) == {EmployeeNameField};
  }
}

/**
 * GET `/`: the filtered listing. Each query parameter that is given adds
 * one condition, the conditions are combined with AND, and the rows come
 * back newest date first.
 */
module Listing {
  import opened Wrappers
  import opened Text
  import opened Formats
  import opened Records

  /** The query string; `None` is a parameter left out or not given as a single string. */
  datatype Query = Query(
    employeeId: Option<string>,
    date: Option<string>,
    startDate: Option<string>,
    endDate: Option<string>,
    status: Option<string>)

  /** `param && typeof param === 'string'`: an empty string counts as left out. */
  predicate Given(p: Option<string>) {
    p.Some? && p.value != ""
  }

  /** One `WHERE` conjunct. Dates are compared as strings. */
  datatype Condition =
    | EmployeeIs(employeeId: string)
    | DateIs(date: string)
    | DateFrom(start: string)
    | DateUntil(end: string)
    | StatusIs(status: Status)

  predicate Holds(c: Condition, r: Record) {
    match c
    case EmployeeIs(e) => r.employeeId == e
    case DateIs(d) => r.date == d
    case DateFrom(s) => LexLe(s, r.date)
    case DateUntil(e) => LexLe(r.date, e)
    case StatusIs(st) => r.status == st
  }

  /** A status parameter outside the enum is dropped rather than refused. */
  function StatusCondition(p: Option<string>): seq<Condition> {
    if Given(p) && ParseStatus(p.value).Some? then [StatusIs(ParseStatus(p.value).value)] else []
  }

  /** The conditions the handler pushes, in the order it pushes them. */
  function Conditions(q: Query): seq<Condition> {
    (if Given(q.employeeId) then [EmployeeIs(q.employeeId.value)] else [])
    + (if Given(q.date) then [DateIs(q.date.value)] else [])
    + (if Given(q.startDate) then [DateFrom(q.startDate.value)] else [])
    + (if Given(q.endDate) then [DateUntil(q.endDate.value)] else [])
    + StatusCondition(q.status)
  }

  /** Every condition of `cs` holds of `r`: the conjuncts joined with AND. */
  predicate AllHold(cs: seq<Condition>, r: Record) {
    forall i :: 0 <= i < |cs| ==> Holds(cs[i], r)
  }

  lemma AllHoldConcat(a: seq<Condition>, b: seq<Condition>, r: Record)
    ensures AllHold(a + b, r) <==> AllHold(a, r) && AllHold(b, r)
  {
    if AllHold(a, r) && AllHold(b, r) {
      forall i | 0 <= i < |a + b| ensures Holds((a + b)[i], r) {
        if i >= |a| { assert (a + b)[i] == b[i - |a|]; }
      }
    }
    if AllHold(a + b, r) {
      forall i | 0 <= i < |a| ensures Holds(a[i], r) {
        assert (a + b)[i] == a[i];
      }
      forall i | 0 <= i < |b| ensures Holds(b[i], r) {
        assert (a + b)[|a| + i] == b[i];
      }
    }
  }

  lemma AllHoldOne(c: Condition, r: Record)
    ensures AllHold([c], r) <==> Holds(c, r)
  {
    assert [c][0] == c;
  }

  /** What the listing promises of a row, filter by filter. */
  predicate Selects(q: Query, r: Record) {
    && (Given(q.employeeId) ==> r.employeeId == q.employeeId.value)
    && (Given(q.date) ==> r.date == q.date.value)
    && (Given(q.startDate) ==> LexLe(q.startDate.value, r.date))
    && (Given(q.endDate) ==> LexLe(r.date, q.endDate.value))
    && (Given(q.status) && ParseStatus(q.status.value).Some? ==> StatusName(r.status) == q.status.value)
  }

  /** The assembled `WHERE` clause holds of a row exactly when every given filter does. */
  lemma ConditionsMeanSelects(q: Query, r: Record)
    ensures Selects(q, r) <==> AllHold(Conditions(q), r)
  {
    var c1 := if Given(q.employeeId) then [EmployeeIs(q.employeeId.value)] else [];
    var c2 := if Given(q.date) then [DateIs(q.date.value)] else [];
    var c3 := if Given(q.startDate) then [DateFrom(q.startDate.value)] else [];
    var c4 := if Given(q.endDate) then [DateUntil(q.endDate.value)] else [];
    var c5 := StatusCondition(q.status);
    assert Conditions(q) == c1 + c2 + c3 + c4 + c5;
    AllHoldConcat(c1 + c2 + c3 + c4, c5, r);
    AllHoldConcat(c1 + c2 + c3, c4, r);
    AllHoldConcat(c1 + c2, c3, r);
    AllHoldConcat(c1, c2, r);
    if Given(q.employeeId) { AllHoldOne(c1[0], r); }
    if Given(q.date) { AllHoldOne(c2[0], r); }
    if Given(q.startDate) { AllHoldOne(c3[0], r); }
    if Given(q.endDate) { AllHoldOne(c4[0], r); }
    if Given(q.status) && ParseStatus(q.status.value).Some? {
      ParseStatusName(r.status);
      AllHoldOne(c5[0], r);
    }
  }

  /** A status outside the enum contributes no condition: it is as if the parameter were left out. */
  lemma UnknownStatusIgnored(q: Query)
    requires q.status.Some? && ParseStatus(q.status.value).None?
    ensures Conditions(q) == Conditions(q.(status := None))
  {
  }

  predicate DateDescending(vs: seq<View>) {
    forall i, j :: 0 <= i < j < |vs| ==> LexLe(vs[j].date, vs[i].date)
  }

  predicate DistinctIds(vs: seq<View>) {
    forall i, j :: 0 <= i < j < |vs| ==> vs[i].id != vs[j].id
  }

  function IdsOf(vs: seq<View>): set<nat> {
    set v | v in vs :: v.id
  }

  /** The ids of the rows the listing must return. */
  function Selected(t: Table, q: Query): set<nat> {
    set id | id in t.rows && Selects(q, t.rows[id])
  }

  /** Places `v` before the first row with an earlier date. */
  function InsertByDate(vs: seq<View>, v: View): (r: seq<View>)
    ensures |r| == |vs| + 1
    ensures forall x :: x in r <==> x in vs || x == v
  {
    if vs == [] then [v]
    else if LexLe(vs[0].date, v.date) then [v] + vs
    else
      var rest := InsertByDate(vs[1..], v);
      assert forall x :: x in vs ==> x == vs[0] || x in vs[1..];
      [vs[0]] + rest
  }

  /** Inserting into a date-descending list keeps it date-descending. */
  lemma {:induction false} InsertByDateSorted(vs: seq<View>, v: View)
    requires DateDescending(vs)
    ensures DateDescending(InsertByDate(vs, v))
  {
    if vs != [] {
      if LexLe(vs[0].date, v.date) {
        forall j | 0 <= j < |vs| ensures LexLe(vs[j].date, v.date) {
          if j > 0 { LexLeTransitive(vs[j].date, vs[0].date, v.date); }
        }
      } else {
        LexLeTotal(vs[0].date, v.date);
        InsertByDateSorted(vs[1..], v);
        var rest := InsertByDate(vs[1..], v);
        forall j | 0 <= j < |rest| ensures LexLe(rest[j].date, vs[0].date) {
          assert rest[j] in rest;
          if rest[j] != v {
            var k :| 0 <= k < |vs[1..]| && vs[1..][k] == rest[j];
            assert vs[k + 1] == rest[j];
          }
        }
      }
    }
  }

  /** Inserting a row whose id is new into a list of distinct ids keeps them distinct. */
  lemma {:induction false} InsertByDateDistinct(vs: seq<View>, v: View)
    requires DistinctIds(vs) && v.id !in IdsOf(vs)
    ensures DistinctIds(InsertByDate(vs, v))
    ensures IdsOf(InsertByDate(vs, v)) == IdsOf(vs) + {v.id}
  {
    var r := InsertByDate(vs, v);
    if vs != [] && !LexLe(vs[0].date, v.date) {
      assert vs[0] in vs;
      assert IdsOf(vs[1..]) <= IdsOf(vs) by {
        forall id | id in IdsOf(vs[1..]) ensures id in IdsOf(vs) {
          var x :| x in vs[1..] && x.id == id;
          assert x in vs;
        }
      }
      InsertByDateDistinct(vs[1..], v);
      var rest := InsertByDate(vs[1..], v);
      forall j | 0 <= j < |rest| ensures rest[j].id != vs[0].id {
        assert rest[j] in rest;
        if rest[j] != v {
          var k :| 0 <= k < |vs[1..]| && vs[1..][k] == rest[j];
          assert vs[k + 1] == rest[j];
        }
      }
    }
    forall id ensures id in IdsOf(r) <==> id in IdsOf(vs) || id == v.id {
      if id in IdsOf(r) {
        var x :| x in r && x.id == id;
      }
      if id in IdsOf(vs) {
        var x :| x in vs && x.id == id;
        assert x in r;
      }
      if id == v.id {
        assert v in r;
      }
    }
  }

  /** Every index of the list holds a well-formed date, and the dates run from newest to oldest. */
  predicate NewestFirst(vs: seq<View>) {
    && (forall i :: 0 <= i < |vs| ==> IsDate(vs[i].date))
    && (forall i, j :: 0 <= i < j < |vs| ==>
          Chronological(ParseDate(vs[j].date).value, ParseDate(vs[i].date).value))
  }

  /**
   * The listing: exactly the rows every given filter selects, each once,
   * as stored, newest date first.
   */
  method List(t: Table, q: Query) returns (vs: seq<View>)
    requires Valid(t)
    ensures forall id :: id in IdsOf(vs) <==> id in t.rows && AllHold(Conditions(q), t.rows[id])
    ensures IdsOf(vs) == Selected(t, q)
    ensures DistinctIds(vs)
    ensures forall v :: v in vs ==> Shows(t, v)
    ensures DateDescending(vs)
    ensures NewestFirst(vs)
  {
    var conditions := Conditions(q);
    var pending := set id | id in t.rows && AllHold(conditions, t.rows[id]);
    forall id | id in t.rows ensures AllHold(conditions, t.rows[id]) <==> Selects(q, t.rows[id]) {
      ConditionsMeanSelects(q, t.rows[id]);
    }
    assert pending == Selected(t, q);
    vs := [];
    while pending != {}
      invariant pending <= Selected(t, q)
      invariant IdsOf(vs) == Selected(t, q) - pending
      invariant DistinctIds(vs) && DateDescending(vs)
      invariant forall v :: v in vs ==> Shows(t, v)
      decreases pending
    {
      var id :| id in pending;
      var v := ToView(id, t.rows[id]);
      ViewRoundTrip(id, t.rows[id]);
      InsertByDateSorted(vs, v);
      InsertByDateDistinct(vs, v);
      vs := InsertByDate(vs, v);
      pending := pending - {id};
    }
    forall i | 0 <= i < |vs| ensures IsDate(vs[i].date) {
      assert vs[i] in vs;
    }
    forall i, j | 0 <= i < j < |vs|
      ensures Chronological(ParseDate(vs[j].date).value, ParseDate(vs[i].date).value)
    {
      DateOrderIsChronological(vs[j].date, vs[i].date);
    }
  }
}

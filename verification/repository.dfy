/** `MeterReadingRepository`: the METER_READING table and the queries the service runs against it,
    modelled as pure functions over the rows in insertion order. */
module Repository {
  import opened Wrappers
  import opened Errors
  import opened Months

  /** One METER_READING row; `meterId` stands for the joined meter's id. */
  datatype Reading = Reading(id: int, meterId: int, year: int, month: int, energyConsumed: int)

  /** The persisted state the service reads: the ids of existing meters and the reading rows. */
  datatype Db = Db(meters: set<int>, rows: seq<Reading>)

  /** The WHERE clause of a finder query. */
  datatype Query =
    | ByYear(meterId: int, year: int)
    | ByMonth(meterId: int, year: int, month: int)
  {
    predicate Holds(r: Reading) {
      match this
      case ByYear(m, y) => r.meterId == m && r.year == y
      case ByMonth(m, y, mo) => r.meterId == m && r.year == y && r.month == mo
    }
  }

  /** Two rows for the same natural key `(meterId, year, month)`. */
  predicate SameTuple(a: Reading, b: Reading) {
    a.meterId == b.meterId && a.year == b.year && a.month == b.month
  }

  /** At most one row per `(meterId, year, month)`: the invariant the service keeps. */
  predicate TupleUnique(rows: seq<Reading>) {
    forall i, j :: 0 <= i < j < |rows| ==> !SameTuple(rows[i], rows[j])
  }

  /** The ids of the stored rows. */
  function Ids(rows: seq<Reading>): set<int> {
    set r | r in rows :: r.id
  }

  /** The primary key is unique. */
  predicate IdsUnique(rows: seq<Reading>) {
    forall i, j :: 0 <= i < j < |rows| ==> rows[i].id != rows[j].id
  }

  /** A store the service can have produced: unique keys, unique ids, months in range. */
  predicate WellFormed(rows: seq<Reading>) {
    && TupleUnique(rows)
    && IdsUnique(rows)
    && forall i :: 0 <= i < |rows| ==> IsMonth(rows[i].month)
  }

  /** The rows a query selects, in storage order, each as often as it is stored. */
  function Select(rows: seq<Reading>, q: Query): (found: seq<Reading>)
    ensures forall r :: r in found <==> r in rows && q.Holds(r)
    ensures |found| <= |rows|
  {
    if rows == [] then []
    else
      (if q.Holds(rows[0]) then [rows[0]] else []) + Select(rows[1..], q)
  }

  /** The sum of `energyConsumed` over `rows`. */
  function Total(rows: seq<Reading>): int {
    if rows == [] then 0 else rows[0].energyConsumed + Total(rows[1..])
  }

  /** `aggregateConsumptionByMeterIdAndYear`: SQL's SUM over the meter's rows of the year,
      which is NULL, not 0, when no row matches. */
  function SumConsumption(rows: seq<Reading>, meterId: int, year: int): (sum: Option<int>)
    ensures sum.None? <==> forall r :: r in rows ==> !(r.meterId == meterId && r.year == year)
  {
    if rows == [] then None
    else
      var rest := SumConsumption(rows[1..], meterId, year);
      assert forall r :: r in rows[1..] ==> r in rows;
      if !ByYear(meterId, year).Holds(rows[0]) then rest
      else
        match rest
        case None => Some(rows[0].energyConsumed)
        case Some(s) => Some(rows[0].energyConsumed + s)
  }

  /** `findMeterReadingsByMeterIdAndYear`: exactly the rows of that meter and year,
      possibly none. */
  function FindReadings(rows: seq<Reading>, meterId: int, year: int): (found: seq<Reading>)
    ensures forall r :: r in found <==> r in rows && r.meterId == meterId && r.year == year
  {
    Select(rows, ByYear(meterId, year))
  }

  /** `findMeterReadingByMeterIdAndYearAndMonth`: the one matching row, `None` (null) when
      there is none, and a failure when the single-result query finds several. */
  function FindReading(rows: seq<Reading>, meterId: int, year: int, month: int): (r: Result<Option<Reading>, Error>)
    ensures r == Success(None) <==> forall x :: x in rows ==> !ByMonth(meterId, year, month).Holds(x)
    ensures r.Success? && r.value.Some? ==>
              && r.value.value in rows
              && r.value.value.meterId == meterId && r.value.value.year == year && r.value.value.month == month
    ensures r.Failure? <==> |Select(rows, ByMonth(meterId, year, month))| >= 2
    ensures r.Success? && r.value.Some? ==> Select(rows, ByMonth(meterId, year, month)) == [r.value.value]
    ensures r.Failure? ==> r.error == NonUniqueResult && !TupleUnique(rows)
  {
    var hits := Select(rows, ByMonth(meterId, year, month));
    if |hits| == 0 then Success(None)
    else if |hits| == 1 then
      assert hits[0] in hits;
      Success(Some(hits[0]))
    else
      assert hits[0] in hits;
      assert !TupleUnique(rows) by {
        if TupleUnique(rows) {
          SelectByMonthAtMostOne(rows, meterId, year, month);
        }
      }
      Failure(NonUniqueResult)
  }

  /** Under the uniqueness invariant the month query returns the stored row of that
      `(meterId, year, month)`, whichever it is. */
  lemma FindReadingOfUnique(rows: seq<Reading>, x: Reading)
    requires TupleUnique(rows) && x in rows
    ensures FindReading(rows, x.meterId, x.year, x.month) == Success(Some(x))
  {
    var q := ByMonth(x.meterId, x.year, x.month);
    SelectByMonthAtMostOne(rows, x.meterId, x.year, x.month);
    var hits := Select(rows, q);
    assert x in hits;
  }

  /** Under the uniqueness invariant a month query selects at most one row. */
  lemma {:induction false} SelectByMonthAtMostOne(rows: seq<Reading>, meterId: int, year: int, month: int)
    requires TupleUnique(rows)
    ensures |Select(rows, ByMonth(meterId, year, month))| <= 1
  {
    if rows != [] {
      var q := ByMonth(meterId, year, month);
      var tail := rows[1..];
      TupleUniqueTail(rows);
      SelectByMonthAtMostOne(tail, meterId, year, month);
      if q.Holds(rows[0]) {
        HeadTupleUnique(rows);
        SelectNone(tail, q);
      }
    }
  }

  /** Dropping the first row keeps the uniqueness invariant. */
  lemma TupleUniqueTail(rows: seq<Reading>)
    requires TupleUnique(rows) && rows != []
    ensures TupleUnique(rows[1..])
  {
    var tail := rows[1..];
    forall i, j | 0 <= i < j < |tail| ensures !SameTuple(tail[i], tail[j]) {
      assert tail[i] == rows[i + 1] && tail[j] == rows[j + 1];
    }
  }

  /** Under the uniqueness invariant the first row shares its `(meterId, year, month)` with no
      later row. */
  lemma HeadTupleUnique(rows: seq<Reading>)
    requires TupleUnique(rows) && rows != []
    ensures forall x :: x in rows[1..] ==> !SameTuple(rows[0], x)
  {
    forall x | x in rows[1..] ensures !SameTuple(rows[0], x) {
      var k :| 0 <= k < |rows[1..]| && rows[1..][k] == x;
      assert rows[k + 1] == x;
    }
  }

  /** A query no row satisfies selects nothing. */
  lemma {:induction false} SelectNone(rows: seq<Reading>, q: Query)
    requires forall x :: x in rows ==> !q.Holds(x)
    ensures Select(rows, q) == []
  {
    if rows != [] {
      assert rows[0] in rows;
      assert forall x :: x in rows[1..] ==> x in rows;
      SelectNone(rows[1..], q);
    }
  }

  /** A query every row satisfies selects all of them. */
  lemma {:induction false} SelectAll(rows: seq<Reading>, q: Query)
    requires forall x :: x in rows ==> q.Holds(x)
    ensures Select(rows, q) == rows
  {
    if rows != [] {
      assert rows[0] in rows;
      assert forall x :: x in rows[1..] ==> x in rows;
      SelectAll(rows[1..], q);
      assert rows == [rows[0]] + rows[1..];
    }
  }

  /** A query that holds on every row of `a` and on none of `b` selects exactly `a` from `a + b`. */
  lemma SelectPrefix(a: seq<Reading>, b: seq<Reading>, q: Query)
    requires forall x :: x in a ==> q.Holds(x)
    requires forall x :: x in b ==> !q.Holds(x)
    ensures Select(a + b, q) == a
  {
    SelectConcat(a, b, q);
    SelectAll(a, q);
    SelectNone(b, q);
    assert a + [] == a;
  }

  /** Selecting from two stretches of rows is selecting from each in turn. */
  lemma {:induction false} SelectConcat(a: seq<Reading>, b: seq<Reading>, q: Query)
    ensures Select(a + b, q) == Select(a, q) + Select(b, q)
  {
    if a == [] {
      assert a + b == b;
    } else {
      assert (a + b)[0] == a[0];
      assert (a + b)[1..] == a[1..] + b;
      SelectConcat(a[1..], b, q);
    }
  }

  /** The yearly sum query agrees with summing the rows the year query returns:
      absent exactly when that list is empty. */
  lemma {:induction false} SumConsumptionIsTotalOfFound(rows: seq<Reading>, meterId: int, year: int)
    ensures SumConsumption(rows, meterId, year)
            == if FindReadings(rows, meterId, year) == [] then None
               else Some(Total(FindReadings(rows, meterId, year)))
  {
    if rows != [] {
      var q := ByYear(meterId, year);
      SumConsumptionIsTotalOfFound(rows[1..], meterId, year);
      var rest := Select(rows[1..], q);
      if q.Holds(rows[0]) {
        var found := [rows[0]] + rest;
        assert Select(rows, q) == found;
        assert found[0] == rows[0] && found[1..] == rest;
        assert Total(found) == rows[0].energyConsumed + Total(rest);
      } else {
        assert Select(rows, q) == rest;
      }
    }
  }

  /** The largest id in use, or 0 for an empty table. */
  function MaxId(rows: seq<Reading>): (m: int)
    ensures m >= 0
    ensures forall r :: r in rows ==> r.id <= m
  {
    if rows == [] then 0
    else
      var rest := MaxId(rows[1..]);
      assert forall r :: r in rows ==> r == rows[0] || r in rows[1..];
      if rows[0].id > rest then rows[0].id else rest
  }

  /** The id the IDENTITY column hands out to a new row: any id not in use would do,
      this one lies past all of them. */
  function NextId(rows: seq<Reading>): (id: int)
    ensures id > 0 && id !in Ids(rows)
  {
    MaxId(rows) + 1
  }

  /** `findById`: the row with that primary key, `None` (an empty Optional) when there is none. */
  function FindById(rows: seq<Reading>, id: int): (found: Option<Reading>)
    ensures found.None? <==> id !in Ids(rows)
    ensures found.Some? ==> found.value in rows && found.value.id == id
  {
    if rows == [] then None
    else if rows[0].id == id then Some(rows[0])
    else
      assert Ids(rows) == {rows[0].id} + Ids(rows[1..]) by {
        assert forall r :: r in rows <==> r == rows[0] || r in rows[1..];
      }
      FindById(rows[1..], id)
  }

  /** `existsById`. */
  function ExistsById(rows: seq<Reading>, id: int): (b: bool)
    ensures b <==> exists r :: r in rows && r.id == id
  {
    FindById(rows, id).Some?
  }

  /** `save` of a new entity (null id): the row is appended under a fresh id, whatever
      rows already exist for its `(meterId, year, month)`. */
  function Save(rows: seq<Reading>, meterId: int, year: int, month: int, energyConsumed: int): (rows': seq<Reading>)
    ensures |rows'| == |rows| + 1 && rows'[..|rows|] == rows
    ensures Ids(rows') == Ids(rows) + {NextId(rows)}
  {
    var rows' := rows + [Reading(NextId(rows), meterId, year, month, energyConsumed)];
    assert forall r :: r in rows' <==> r in rows || r == rows'[|rows|];
    rows'
  }

  /** The row saved under a fresh id is found again by that id with the saved values. */
  lemma {:induction false} SaveThenFindById(rows: seq<Reading>, meterId: int, year: int, month: int, energyConsumed: int)
    ensures FindById(Save(rows, meterId, year, month, energyConsumed), NextId(rows))
            == Some(Reading(NextId(rows), meterId, year, month, energyConsumed))
  {
    var x := Reading(NextId(rows), meterId, year, month, energyConsumed);
    FindByIdPastEnd(rows, x);
  }

  /** A row appended under an id not yet stored is what `findById` returns for that id. */
  lemma {:induction false} FindByIdPastEnd(rows: seq<Reading>, x: Reading)
    requires x.id !in Ids(rows)
    ensures FindById(rows + [x], x.id) == Some(x)
  {
    if rows != [] {
      assert (rows + [x])[1..] == rows[1..] + [x];
      assert rows[0] in rows;
      assert Ids(rows[1..]) <= Ids(rows) by {
        assert forall r :: r in rows[1..] ==> r in rows;
      }
      FindByIdPastEnd(rows[1..], x);
    }
  }

  /** Saving keeps primary keys unique. */
  lemma SaveKeepsIdsUnique(rows: seq<Reading>, meterId: int, year: int, month: int, energyConsumed: int)
    requires IdsUnique(rows)
    ensures IdsUnique(Save(rows, meterId, year, month, energyConsumed))
  {
    var rows' := Save(rows, meterId, year, month, energyConsumed);
    forall i, j | 0 <= i < j < |rows'| ensures rows'[i].id != rows'[j].id {
      if j == |rows| {
        assert rows'[i] == rows[i] && rows[i] in rows;
      } else {
        assert rows'[i] == rows[i] && rows'[j] == rows[j];
      }
    }
  }

  /** Saving a reading whose `(meterId, year, month)` is not yet stored keeps the tuple
      invariant; the table itself does not enforce it. */
  lemma SaveKeepsTupleUnique(rows: seq<Reading>, meterId: int, year: int, month: int, energyConsumed: int)
    requires TupleUnique(rows)
    requires forall x :: x in rows ==> !ByMonth(meterId, year, month).Holds(x)
    ensures TupleUnique(Save(rows, meterId, year, month, energyConsumed))
  {
    var rows' := Save(rows, meterId, year, month, energyConsumed);
    forall i, j | 0 <= i < j < |rows'| ensures !SameTuple(rows'[i], rows'[j]) {
      if j == |rows| {
        assert rows'[i] == rows[i] && rows[i] in rows;
      } else {
        assert rows'[i] == rows[i] && rows'[j] == rows[j];
      }
    }
  }

  /** The table does not enforce the key: saving a second row for a stored
      `(meterId, year, month)` is accepted and breaks the uniqueness invariant. */
  lemma SaveRepeatsTuple(rows: seq<Reading>, x: Reading, energyConsumed: int)
    requires x in rows
    ensures !TupleUnique(Save(rows, x.meterId, x.year, x.month, energyConsumed))
  {
    var rows' := Save(rows, x.meterId, x.year, x.month, energyConsumed);
    var i :| 0 <= i < |rows| && rows[i] == x;
    assert rows'[i] == x && SameTuple(rows'[i], rows'[|rows|]);
  }

  /** Every row except those with the given id, in order. */
  function RemoveId(rows: seq<Reading>, id: int): (rows': seq<Reading>)
    ensures forall r :: r in rows' <==> r in rows && r.id != id
    ensures |rows'| <= |rows|
  {
    if rows == [] then []
    else (if rows[0].id == id then [] else [rows[0]]) + RemoveId(rows[1..], id)
  }

  /** `deleteById`: removes the row with that id; Spring Data refuses an id that is not stored. */
  function DeleteById(rows: seq<Reading>, id: int): (r: Result<seq<Reading>, Error>)
    ensures r.Failure? <==> !ExistsById(rows, id)
    ensures r.Failure? ==> r.error == NoReadingWithId(id)
    ensures r.Success? ==> id !in Ids(r.value) && Ids(r.value) == Ids(rows) - {id}
    ensures r.Success? ==> forall x :: x in r.value <==> x in rows && x.id != id
  {
    if !ExistsById(rows, id) then Failure(NoReadingWithId(id))
    else Success(RemoveId(rows, id))
  }
}

/** `MeterServiceImpl`: each operation validates its input, queries the store and builds a view.
    Read operations take the store and return only a result; the save operation returns the
    store it leaves behind. */
module MeterService {
  import opened Wrappers
  import opened Errors
  import opened Months
  import opened Dto
  import opened Repository
  import opened Validator

  /** The meter-id and year checks every read operation starts with, in that order. */
  function ValidateMeterIdAndYear(id: Option<int>, year: Option<int>, meters: set<int>, currentYear: int): (o: Outcome<Error>)
    ensures o.Pass? <==> id.Some? && id.value > 0 && id.value in meters && year.Some? && 0 <= year.value <= currentYear
    ensures o == FirstFailure([ValidateMeterId(id, meters), ValidateYear(year, currentYear)])
  {
    var os := [ValidateMeterId(id, meters), ValidateYear(year, currentYear)];
    assert os[1..][1..] == [];
    if ValidateMeterId(id, meters).Fail? then ValidateMeterId(id, meters) else ValidateYear(year, currentYear)
  }

  /** A present, positive id of an existing meter and a present year in `[0, currentYear]`. */
  predicate ValidMeterAndYear(db: Db, currentYear: int, id: Option<int>, year: Option<int>) {
    && id.Some? && id.value > 0 && id.value in db.meters
    && year.Some? && 0 <= year.value <= currentYear
  }

  /** Every row's month is one `Month.of` accepts. */
  predicate AllMonthsValid(rows: seq<Reading>) {
    forall i :: 0 <= i < |rows| ==> IsMonth(rows[i].month)
  }

  /** No two rows share a month. */
  predicate DistinctMonths(rows: seq<Reading>) {
    forall i, j :: 0 <= i < j < |rows| ==> rows[i].month != rows[j].month
  }

  /** `m` maps the English name of each row's month to that row's energy consumed, and has no
      other key. */
  predicate IsBreakdownOf(m: map<string, int>, rows: seq<Reading>) {
    && (forall x :: x in rows ==> IsMonth(x.month) && MonthName(x.month) in m && m[MonthName(x.month)] == x.energyConsumed)
    && (forall k :: k in m ==> exists x :: x in rows && IsMonth(x.month) && MonthName(x.month) == k)
  }

  /** `aggregateConsumptionByMeterIdAndYear`: the yearly total of one meter. */
  function AggregateConsumption(db: Db, currentYear: int, id: Option<int>, year: Option<int>): (r: Result<MeterReadingDto, Error>)
    ensures ValidateMeterId(id, db.meters).Fail? ==> r == Failure(ValidateMeterId(id, db.meters).error)
    ensures ValidateMeterId(id, db.meters).Pass? && ValidateYear(year, currentYear).Fail? ==>
                  r == Failure(ValidateYear(year, currentYear).error)
    ensures r.Success? <==>
              && ValidMeterAndYear(db, currentYear, id, year)
              && exists x :: x in db.rows && x.meterId == id.value && x.year == year.value
    ensures ValidMeterAndYear(db, currentYear, id, year)
              && (forall x :: x in db.rows ==> !(x.meterId == id.value && x.year == year.value)) ==>
                  r == Failure(ReadingsNotFound(id.value, year.value))
    ensures r.Success? ==> r.value == TotalView(year.value, Total(FindReadings(db.rows, id.value, year.value)))
  {
    match ValidateMeterIdAndYear(id, year, db.meters, currentYear)
    case Fail(e) => Failure(e)
    case Pass =>
      SumConsumptionIsTotalOfFound(db.rows, id.value, year.value);
      match SumConsumption(db.rows, id.value, year.value)
      case None => Failure(ReadingsNotFound(id.value, year.value))
      case Some(total) => Success(TotalView(year.value, total))
  }

  /** `Collectors.toMap(this::meterReadingMonth, MeterReading::getEnergyConsumed)` over `rows`,
      left to right: `Month.of` throws on a month out of range and the collector, having no
      merge function, throws on a month seen before. */
  function CollectMonths(rows: seq<Reading>): (r: Result<map<string, int>, Error>)
    ensures r.Success? <==> AllMonthsValid(rows) && DistinctMonths(rows)
    ensures r.Success? ==> IsBreakdownOf(r.value, rows) && |r.value| == |rows|
    ensures r.Failure? ==> r.error.InvalidMonth? || r.error.DuplicateMonthKey?
    ensures AllMonthsValid(rows) && r.Failure? ==> r.error.DuplicateMonthKey?
    decreases |rows|
  {
    if rows == [] then Success(map[])
    else
      var init, last := rows[..|rows| - 1], rows[|rows| - 1];
      assert rows == init + [last];
      match CollectMonths(init)
      case Failure(e) => Failure(e)
      case Success(m) =>
        match MonthOf(last.month)
        case None => Failure(InvalidMonth(last.month))
        case Some(name) =>
          if name in m then
            CollectStepDuplicate(init, last, m);
            Failure(DuplicateMonthKey(name))
          else
            CollectStepFresh(init, last, m);
            CollectStepExtend(init, last, m);
            Success(m[name := last.energyConsumed])
  }

  /** A row whose month name is already a key repeats the month of an earlier row. */
  lemma CollectStepDuplicate(init: seq<Reading>, last: Reading, m: map<string, int>)
    requires IsBreakdownOf(m, init)
    requires IsMonth(last.month) && MonthName(last.month) in m
    ensures !DistinctMonths(init + [last])
  {
    var rows := init + [last];
    var x :| x in init && IsMonth(x.month) && MonthName(x.month) == MonthName(last.month);
    var i :| 0 <= i < |init| && init[i] == x;
    assert rows[i] == x && rows[|init|] == last;
  }

  /** A row whose month name is not yet a key keeps the months distinct and in range. */
  lemma CollectStepFresh(init: seq<Reading>, last: Reading, m: map<string, int>)
    requires AllMonthsValid(init) && DistinctMonths(init) && IsBreakdownOf(m, init)
    requires IsMonth(last.month) && MonthName(last.month) !in m
    ensures AllMonthsValid(init + [last]) && DistinctMonths(init + [last])
  {
    var rows := init + [last];
    assert forall i :: 0 <= i < |init| ==> rows[i] == init[i];
    forall i, j | 0 <= i < j < |rows| ensures rows[i].month != rows[j].month {
      if j == |init| {
        assert rows[i] in init;
      }
    }
  }

  /** Entering a row whose month name is not yet a key extends the breakdown by one entry. */
  lemma CollectStepExtend(init: seq<Reading>, last: Reading, m: map<string, int>)
    requires IsBreakdownOf(m, init) && |m| == |init|
    requires IsMonth(last.month) && MonthName(last.month) !in m
    ensures IsBreakdownOf(m[MonthName(last.month) := last.energyConsumed], init + [last])
    ensures |m[MonthName(last.month) := last.energyConsumed]| == |init| + 1
  {
    var rows, name := init + [last], MonthName(last.month);
    var m' := m[name := last.energyConsumed];
    assert forall x :: x in rows <==> x in init || x == last;
    forall x | x in rows
      ensures IsMonth(x.month) && MonthName(x.month) in m' && m'[MonthName(x.month)] == x.energyConsumed
    {
      if x != last {
        assert MonthName(x.month) in m;
      }
    }
    forall k | k in m' ensures exists x :: x in rows && IsMonth(x.month) && MonthName(x.month) == k {
      if k == name {
        assert last in rows;
      } else {
        var x :| x in init && IsMonth(x.month) && MonthName(x.month) == k;
        assert x in rows;
      }
    }
  }

  /** `findByMeterIdAndYear`: the month-by-month breakdown of one meter's year. */
  function FindByMeterIdAndYear(db: Db, currentYear: int, id: Option<int>, year: Option<int>): (r: Result<MeterReadingDto, Error>)
    ensures ValidateMeterId(id, db.meters).Fail? ==> r == Failure(ValidateMeterId(id, db.meters).error)
    ensures ValidateMeterId(id, db.meters).Pass? && ValidateYear(year, currentYear).Fail? ==>
                  r == Failure(ValidateYear(year, currentYear).error)
    ensures ValidMeterAndYear(db, currentYear, id, year)
              && (forall x :: x in db.rows ==> !(x.meterId == id.value && x.year == year.value)) ==>
                  r == Failure(ReadingsNotFound(id.value, year.value))
    ensures ValidMeterAndYear(db, currentYear, id, year) && FindReadings(db.rows, id.value, year.value) != [] ==>
                  (r.Success? <==> AllMonthsValid(FindReadings(db.rows, id.value, year.value))
                                   && DistinctMonths(FindReadings(db.rows, id.value, year.value)))
    ensures r.Success? ==>
              && ValidMeterAndYear(db, currentYear, id, year)
              && r.value.monthlyEnergyConsumption.Some?
              && r.value == MonthlyView(year.value, r.value.monthlyEnergyConsumption.value)
              && IsBreakdownOf(r.value.monthlyEnergyConsumption.value, FindReadings(db.rows, id.value, year.value))
              && |r.value.monthlyEnergyConsumption.value| == |FindReadings(db.rows, id.value, year.value)| > 0
    ensures ValidMeterAndYear(db, currentYear, id, year) && FindReadings(db.rows, id.value, year.value) != []
              && r.Failure? ==>
                  r.error.InvalidMonth? || r.error.DuplicateMonthKey?
  {
    match ValidateMeterIdAndYear(id, year, db.meters, currentYear)
    case Fail(e) => Failure(e)
    case Pass =>
      var found := FindReadings(db.rows, id.value, year.value);
      if found == [] then
        Failure(ReadingsNotFound(id.value, year.value))
      else
        match CollectMonths(found)
        case Failure(e) => Failure(e)
        case Success(m) => Success(MonthlyView(year.value, m))
  }

  /** `meterReadingToMeterReadingDTO`: a single-entry view keyed by the row's month name. */
  function ToMonthlyView(x: Reading): (v: MeterReadingDto)
    requires IsMonth(x.month)
    ensures v.year == Some(x.year)
    ensures v.monthlyEnergyConsumption.Some?
    ensures forall k :: k in v.monthlyEnergyConsumption.value <==> MonthNumber(k) == Some(x.month)
    ensures v.monthlyEnergyConsumption.value.Values == {x.energyConsumed}
    ensures v == MonthlyView(x.year, v.monthlyEnergyConsumption.value)
  {
    MonthlyView(x.year, map[MonthName(x.month) := x.energyConsumed])
  }

  /** `findByMeterIdAndYearAndMonth`: one month of one meter's year. */
  function FindByMeterIdAndYearAndMonth(db: Db, currentYear: int, id: Option<int>, year: Option<int>, month: Option<int>)
    : (r: Result<MeterReadingDto, Error>)
    ensures ValidateMeterId(id, db.meters).Fail? ==> r == Failure(ValidateMeterId(id, db.meters).error)
    ensures ValidateMeterId(id, db.meters).Pass? && ValidateYear(year, currentYear).Fail? ==>
                  r == Failure(ValidateYear(year, currentYear).error)
    ensures ValidMeterAndYear(db, currentYear, id, year) && ValidateMonth(month).Fail? ==>
                  r == Failure(ValidateMonth(month).error)
    ensures ValidMeterAndYear(db, currentYear, id, year) && month.Some? && IsMonth(month.value)
              && (forall x :: x in db.rows ==> !ByMonth(id.value, year.value, month.value).Holds(x)) ==>
                  r == Failure(ReadingNotFound(id.value, year.value, MonthName(month.value)))
    ensures r.Success? ==>
              && ValidMeterAndYear(db, currentYear, id, year) && month.Some? && IsMonth(month.value)
              && exists x :: x in db.rows && ByMonth(id.value, year.value, month.value).Holds(x)
                             && r.value == MonthlyView(year.value, map[MonthName(month.value) := x.energyConsumed])
    ensures ValidMeterAndYear(db, currentYear, id, year) && month.Some? && IsMonth(month.value) ==>
              var hits := Select(db.rows, ByMonth(id.value, year.value, month.value));
              |hits| == 1 ==> r == Success(MonthlyView(year.value, map[MonthName(month.value) := hits[0].energyConsumed]))
    ensures ValidMeterAndYear(db, currentYear, id, year) && month.Some? && IsMonth(month.value)
              && |Select(db.rows, ByMonth(id.value, year.value, month.value))| >= 2 ==>
                  r == Failure(NonUniqueResult)
  {
    match ValidateMeterIdAndYear(id, year, db.meters, currentYear)
    case Fail(e) => Failure(e)
    case Pass =>
      match ValidateMonth(month)
      case Fail(e) => Failure(e)
      case Pass =>
        var name := MonthName(month.value);
        match FindReading(db.rows, id.value, year.value, month.value)
        case Failure(e) => Failure(e)
        case Success(None) => Failure(ReadingNotFound(id.value, year.value, name))
        case Success(Some(x)) =>
          Success(ToMonthlyView(x))
  }

  /** Under the uniqueness invariant two rows with the same `(meterId, year, month)` are one row. */
  lemma OnlyMatch(rows: seq<Reading>, x: Reading, y: Reading, meterId: int, year: int, month: int)
    requires TupleUnique(rows)
    requires x in rows && y in rows
    requires ByMonth(meterId, year, month).Holds(x) && ByMonth(meterId, year, month).Holds(y)
    ensures x == y
  {
    var i :| 0 <= i < |rows| && rows[i] == x;
    var j :| 0 <= j < |rows| && rows[j] == y;
    assert SameTuple(rows[i], rows[j]) && SameTuple(rows[j], rows[i]);
  }

  /** What a save returns: the operation's result and the store it leaves behind. */
  datatype Saved = Saved(result: Result<MeterReadingDto, Error>, db: Db)

  /** `saveMeterReading`: stores a validated reading unless its `(meterId, year, month)` is
      already stored, and echoes the input back. */
  function SaveMeterReading(db: Db, currentYear: int, dto: Option<MeterReadingDto>): (s: Saved)
    ensures ValidateMeterReadingDto(dto, db.meters, currentYear).Fail? ==>
                  s == Saved(Failure(ValidateMeterReadingDto(dto, db.meters, currentYear).error), db)
    ensures s.result.Failure? ==> s.db == db
    ensures s.db.meters == db.meters
    ensures dto.Some? && IsValidInput(dto.value, db.meters, currentYear) ==>
                  var d := dto.value;
                  var q := ByMonth(d.meterId.value, d.year.value, d.month.value);
                  && ((exists x :: x in db.rows && q.Holds(x)) <==> s.result.Failure?)
                  && (|Select(db.rows, q)| <= 1 && s.result.Failure? ==>
                            s.result.error == ReadingAlreadyExists(d.meterId.value, d.year.value, MonthName(d.month.value)))
    ensures s.result.Success? ==>
              && dto.Some? && IsValidInput(dto.value, db.meters, currentYear)
              && s.result.value == dto.value
              && |s.db.rows| == |db.rows| + 1 && s.db.rows[..|db.rows|] == db.rows
              && var x := s.db.rows[|db.rows|];
                 && x.id !in Ids(db.rows)
                 && x.meterId == dto.value.meterId.value && x.year == dto.value.year.value
                 && x.month == dto.value.month.value && x.energyConsumed == dto.value.energyConsumed.value
    ensures dto.Some? && IsValidInput(dto.value, db.meters, currentYear)
              && |Select(db.rows, ByMonth(dto.value.meterId.value, dto.value.year.value, dto.value.month.value))| >= 2 ==>
                  s == Saved(Failure(NonUniqueResult), db)
    ensures TupleUnique(db.rows) ==> TupleUnique(s.db.rows)
    ensures WellFormed(db.rows) ==> WellFormed(s.db.rows)
  {
    match ValidateMeterReadingDto(dto, db.meters, currentYear)
    case Fail(e) => Saved(Failure(e), db)
    case Pass =>
      var d := dto.value;
      var meterId, year, month, energy := d.meterId.value, d.year.value, d.month.value, d.energyConsumed.value;
      var name := MonthName(month);
      match FindReading(db.rows, meterId, year, month)
      case Failure(e) => Saved(Failure(e), db)
      case Success(Some(_)) => Saved(Failure(ReadingAlreadyExists(meterId, year, name)), db)
      case Success(None) =>
        var rows' := Save(db.rows, meterId, year, month, energy);
        assert TupleUnique(db.rows) ==> TupleUnique(rows') by {
          if TupleUnique(db.rows) {
            SaveKeepsTupleUnique(db.rows, meterId, year, month, energy);
          }
        }
        assert WellFormed(db.rows) ==> WellFormed(rows') by {
          if WellFormed(db.rows) {
            SaveKeepsIdsUnique(db.rows, meterId, year, month, energy);
            assert forall i :: 0 <= i < |db.rows| ==> rows'[i] == db.rows[i];
          }
        }
        Saved(Success(d), db.(rows := rows'))
  }

  /** The rows of one meter's year in a store with unique `(meterId, year, month)` keys have
      distinct months. */
  lemma {:induction false} FoundMonthsDistinct(rows: seq<Reading>, meterId: int, year: int)
    requires TupleUnique(rows)
    ensures DistinctMonths(FindReadings(rows, meterId, year))
  {
    if rows != [] {
      var q, tail := ByYear(meterId, year), rows[1..];
      TupleUniqueTail(rows);
      FoundMonthsDistinct(tail, meterId, year);
      var rest := Select(tail, q);
      if q.Holds(rows[0]) {
        assert Select(rows, q) == [rows[0]] + rest;
        HeadTupleUnique(rows);
        assert forall y :: y in rest ==> y in tail && q.Holds(y);
        DistinctCons(rows[0], rest);
      } else {
        assert Select(rows, q) == rest;
      }
    }
  }

  /** A row put in front of rows with distinct months, none of them its own, keeps the months
      distinct. */
  lemma DistinctCons(h: Reading, rest: seq<Reading>)
    requires DistinctMonths(rest)
    requires forall y :: y in rest ==> y.month != h.month
    ensures DistinctMonths([h] + rest)
  {
    var found := [h] + rest;
    forall i, j | 0 <= i < j < |found| ensures found[i].month != found[j].month {
      assert found[j] == rest[j - 1];
      if i > 0 {
        assert found[i] == rest[i - 1];
      }
    }
  }

  /** The rows of one meter's year have months in range when the store's rows do. */
  lemma FoundMonthsValid(rows: seq<Reading>, meterId: int, year: int)
    requires AllMonthsValid(rows)
    ensures AllMonthsValid(FindReadings(rows, meterId, year))
  {
    var found := FindReadings(rows, meterId, year);
    forall i | 0 <= i < |found| ensures IsMonth(found[i].month) {
      assert found[i] in rows;
    }
  }

  /** On a store the service can have produced, the monthly breakdown of a meter's year fails
      only when that year has no readings, and then it has one entry per reading. */
  lemma FindByYearOnWellFormedStore(db: Db, currentYear: int, id: Option<int>, year: Option<int>)
    requires WellFormed(db.rows)
    requires ValidMeterAndYear(db, currentYear, id, year)
    requires exists x :: x in db.rows && x.meterId == id.value && x.year == year.value
    ensures FindByMeterIdAndYear(db, currentYear, id, year).Success?
  {
    FoundMonthsDistinct(db.rows, id.value, year.value);
    FoundMonthsValid(db.rows, id.value, year.value);
    var x :| x in db.rows && x.meterId == id.value && x.year == year.value;
    assert x in FindReadings(db.rows, id.value, year.value);
  }

  /** A yearly total fails only on a rejected input (`IllegalArgumentException`) or a missing
      year (`ResourceNotFoundException`). */
  lemma AggregateErrorKinds(db: Db, currentYear: int, id: Option<int>, year: Option<int>)
    ensures AggregateConsumption(db, currentYear, id, year).Failure? ==>
              var e := AggregateConsumption(db, currentYear, id, year).error;
              e.IsIllegalArgument() || e.IsNotFound()
  {
  }

  /** On a store the service can have produced, the monthly breakdown fails only on a rejected
      input or a missing year: the collector's duplicate-key exception cannot occur. */
  lemma FindByYearErrorKinds(db: Db, currentYear: int, id: Option<int>, year: Option<int>)
    requires WellFormed(db.rows)
    ensures FindByMeterIdAndYear(db, currentYear, id, year).Failure? ==>
              var e := FindByMeterIdAndYear(db, currentYear, id, year).error;
              e.IsIllegalArgument() || e.IsNotFound()
  {
    if ValidMeterAndYear(db, currentYear, id, year) && exists x :: x in db.rows && x.meterId == id.value && x.year == year.value {
      FindByYearOnWellFormedStore(db, currentYear, id, year);
    }
  }

  /** On a store the service can have produced, the month lookup fails only on a rejected input
      or a missing month: the single-result query never finds two rows. */
  lemma FindByMonthErrorKinds(db: Db, currentYear: int, id: Option<int>, year: Option<int>, month: Option<int>)
    requires TupleUnique(db.rows)
    ensures FindByMeterIdAndYearAndMonth(db, currentYear, id, year, month).Failure? ==>
              var e := FindByMeterIdAndYearAndMonth(db, currentYear, id, year, month).error;
              e.IsIllegalArgument() || e.IsNotFound()
  {
  }

  /** On a store the service can have produced, a save fails only with an
      `IllegalArgumentException`: a rejected input or a reading already stored. */
  lemma SaveErrorKinds(db: Db, currentYear: int, dto: Option<MeterReadingDto>)
    requires TupleUnique(db.rows)
    ensures SaveMeterReading(db, currentYear, dto).result.Failure? ==>
              SaveMeterReading(db, currentYear, dto).result.error.IsIllegalArgument()
  {
  }

  /** After a successful save, the month query on the saved `(meterId, year, month)` returns
      exactly the saved energy. */
  lemma SaveThenFindByMonth(db: Db, currentYear: int, d: MeterReadingDto)
    requires SaveMeterReading(db, currentYear, Some(d)).result.Success?
    ensures
      var db' := SaveMeterReading(db, currentYear, Some(d)).db;
      FindByMeterIdAndYearAndMonth(db', currentYear, d.meterId, d.year, d.month)
      == Success(MonthlyView(d.year.value, map[MonthName(d.month.value) := d.energyConsumed.value]))
  {
    var db' := SaveMeterReading(db, currentYear, Some(d)).db;
    var meterId, year, month := d.meterId.value, d.year.value, d.month.value;
    SavedRowIsOnlyMatch(db, currentYear, d);
    var x := db'.rows[|db.rows|];
    assert FindReading(db'.rows, meterId, year, month) == Success(Some(x));
  }

  /** After a successful save, the month query on the saved key selects exactly the new row. */
  lemma SavedRowIsOnlyMatch(db: Db, currentYear: int, d: MeterReadingDto)
    requires SaveMeterReading(db, currentYear, Some(d)).result.Success?
    ensures
      var db' := SaveMeterReading(db, currentYear, Some(d)).db;
      Select(db'.rows, ByMonth(d.meterId.value, d.year.value, d.month.value)) == [db'.rows[|db.rows|]]
  {
    var db' := SaveMeterReading(db, currentYear, Some(d)).db;
    var q := ByMonth(d.meterId.value, d.year.value, d.month.value);
    var x := db'.rows[|db.rows|];
    assert db'.rows == db.rows + [x];
    SelectNone(db.rows, q);
    SelectConcat(db.rows, [x], q);
    SelectAll([x], q);
  }

  /** Saving a valid reading whose `(meterId, year, month)` is already stored fails with the
      "already exists" message naming that meter, year and month, and changes nothing. */
  lemma SaveDuplicate(db: Db, currentYear: int, d: MeterReadingDto, x: Reading)
    requires IsValidInput(d, db.meters, currentYear) && TupleUnique(db.rows)
    requires x in db.rows && ByMonth(d.meterId.value, d.year.value, d.month.value).Holds(x)
    ensures SaveMeterReading(db, currentYear, Some(d))
            == Saved(Failure(ReadingAlreadyExists(d.meterId.value, d.year.value, MonthName(d.month.value))), db)
  {
  }

  /** Saving a second reading for a `(meterId, year, month)` just saved fails with the
      "already exists" message naming that meter, year and month, and changes nothing. */
  lemma SaveTwiceFails(db: Db, currentYear: int, d: MeterReadingDto, again: MeterReadingDto)
    requires SaveMeterReading(db, currentYear, Some(d)).result.Success?
    requires IsValidInput(again, db.meters, currentYear)
    requires again.meterId == d.meterId && again.year == d.year && again.month == d.month
    ensures
      var db' := SaveMeterReading(db, currentYear, Some(d)).db;
      SaveMeterReading(db', currentYear, Some(again))
      == Saved(Failure(ReadingAlreadyExists(d.meterId.value, d.year.value, MonthName(d.month.value))), db')
  {
    var db' := SaveMeterReading(db, currentYear, Some(d)).db;
    SavedRowIsOnlyMatch(db, currentYear, d);
    var x := db'.rows[|db.rows|];
    assert FindReading(db'.rows, d.meterId.value, d.year.value, d.month.value) == Success(Some(x));
  }

  /** The aggregate of a valid meter and year is the total of the rows the year query returns,
      once that list is known to be non-empty. */
  lemma AggregateOfFound(db: Db, currentYear: int, id: int, year: int, found: seq<Reading>)
    requires ValidMeterAndYear(db, currentYear, Some(id), Some(year))
    requires FindReadings(db.rows, id, year) == found && found != []
    ensures AggregateConsumption(db, currentYear, Some(id), Some(year)) == Success(TotalView(year, Total(found)))
  {
    assert found[0] in db.rows;
  }
}

/** The seeded data of the repository's integration tests and the outcomes those tests expect,
    stated about the model. */
module Scenarios {
  import opened Wrappers
  import opened Errors
  import opened Months
  import opened Dto
  import opened Repository
  import opened Validator
  import opened MeterService

  /** Meter 1's twelve readings of 2020. */
  const MeterOneRows: seq<Reading> := [
    Reading(1, 1, 2020, 1, 11), Reading(2, 1, 2020, 2, 14), Reading(3, 1, 2020, 3, 9),
    Reading(4, 1, 2020, 4, 23), Reading(5, 1, 2020, 5, 16), Reading(6, 1, 2020, 6, 18),
    Reading(7, 1, 2020, 7, 12), Reading(8, 1, 2020, 8, 17), Reading(9, 1, 2020, 9, 8),
    Reading(10, 1, 2020, 10, 25), Reading(11, 1, 2020, 11, 20), Reading(12, 1, 2020, 12, 22)
  ]

  /** Meter 2's twelve readings of 2020. */
  const MeterTwoRows: seq<Reading> := [
    Reading(13, 2, 2020, 1, 7), Reading(14, 2, 2020, 2, 15), Reading(15, 2, 2020, 3, 12),
    Reading(16, 2, 2020, 4, 19), Reading(17, 2, 2020, 5, 13), Reading(18, 2, 2020, 6, 11),
    Reading(19, 2, 2020, 7, 16), Reading(20, 2, 2020, 8, 24), Reading(21, 2, 2020, 9, 29),
    Reading(22, 2, 2020, 10, 8), Reading(23, 2, 2020, 11, 14), Reading(24, 2, 2020, 12, 15)
  ]

  /** Meters 1, 2 and 3; meter 3 has no readings. */
  const Seed := Db({1, 2, 3}, MeterOneRows + MeterTwoRows)

  /** Meter 1's rows: ids 1 to 12, all from 2020. */
  lemma MeterOneShape()
    ensures forall x :: x in MeterOneRows ==> x.meterId == 1 && x.year == 2020 && 1 <= x.id <= 12
  {
  }

  /** Meter 2's rows: ids 13 to 24, all from 2020. */
  lemma MeterTwoShape()
    ensures forall x :: x in MeterTwoRows ==> x.meterId == 2 && x.year == 2020 && 13 <= x.id <= 24
  {
  }

  /** The year query for meter 1 and 2020 returns exactly its twelve rows. */
  lemma SeedYearRows()
    ensures FindReadings(Seed.rows, 1, 2020) == MeterOneRows
    ensures |FindReadings(Seed.rows, 1, 2020)| == 12
  {
    MeterOneShape();
    MeterTwoShape();
    SelectPrefix(MeterOneRows, MeterTwoRows, ByYear(1, 2020));
  }

  /** Meter 1's 2020 total is 195. */
  lemma SeedAggregate(currentYear: int)
    requires currentYear >= 2020
    ensures AggregateConsumption(Seed, currentYear, Some(1), Some(2020)) == Success(TotalView(2020, 195))
  {
    assert AggregateConsumption(Seed, currentYear, Some(1), Some(2020))
           == Success(TotalView(2020, Total(MeterOneRows))) by {
      SeedYearRows();
      AggregateOfFound(Seed, currentYear, 1, 2020, MeterOneRows);
    }
    assert Total(MeterOneRows) == 195;
  }

  /** Meter 1 has no readings in 2021: the total and the breakdown are not found, not zero
      or empty. */
  lemma SeedMissingYear(currentYear: int)
    requires currentYear >= 2021
    ensures AggregateConsumption(Seed, currentYear, Some(1), Some(2021)) == Failure(ReadingsNotFound(1, 2021))
    ensures FindByMeterIdAndYear(Seed, currentYear, Some(1), Some(2021)) == Failure(ReadingsNotFound(1, 2021))
  {
    assert forall x :: x in Seed.rows ==> !(x.meterId == 1 && x.year == 2021) by {
      SeedAllIn2020();
    }
  }

  /** Every seeded reading is from 2020. */
  lemma SeedAllIn2020()
    ensures forall x :: x in Seed.rows ==> x.year == 2020
  {
    MeterOneShape();
    MeterTwoShape();
    assert forall x :: x in MeterOneRows + MeterTwoRows ==> x in MeterOneRows || x in MeterTwoRows;
  }

  /** The seeded store satisfies the invariants the service keeps. */
  lemma SeedWellFormed()
    ensures WellFormed(Seed.rows)
  {
    var one, two := MeterOneRows, MeterTwoRows;
    assert forall i :: 0 <= i < |one| ==> one[i].id == i + 1 && one[i].meterId == 1 && one[i].month == i + 1;
    assert forall i :: 0 <= i < |two| ==> two[i].id == i + 13 && two[i].meterId == 2 && two[i].month == i + 1;
    var rows := one + two;
    assert |one| == 12 && |rows| == 24;
    assert forall i :: 0 <= i < |rows| ==> rows[i].id == i + 1 && rows[i].month == i % 12 + 1 && rows[i].meterId == i / 12 + 1 by {
      forall i | 0 <= i < |rows| ensures rows[i].id == i + 1 && rows[i].month == i % 12 + 1 && rows[i].meterId == i / 12 + 1 {
        if i < 12 {
          assert rows[i] == one[i];
        } else {
          assert rows[i] == two[i - 12];
        }
      }
    }
    assert WellFormed(rows);
  }

  /** The breakdown of meter 1's 2020 has twelve months, January's being 11. */
  lemma SeedYearBreakdown(currentYear: int)
    requires currentYear >= 2020
    ensures
      var r := FindByMeterIdAndYear(Seed, currentYear, Some(1), Some(2020));
      && r.Success? && r.value.year == Some(2020) && r.value.monthlyEnergyConsumption.Some?
      && |r.value.monthlyEnergyConsumption.value| == 12
      && "January" in r.value.monthlyEnergyConsumption.value
      && r.value.monthlyEnergyConsumption.value["January"] == 11
  {
    assert FindByMeterIdAndYear(Seed, currentYear, Some(1), Some(2020)).Success? by {
      SeedWellFormed();
      assert MeterOneRows[0] in Seed.rows;
      FindByYearOnWellFormedStore(Seed, currentYear, Some(1), Some(2020));
    }
    SeedYearRows();
    assert MeterOneRows[0] in MeterOneRows && MeterOneRows[0].month == 1;
  }

  /** Meter 1's January 2020 is the single entry January: 11. */
  lemma SeedJanuary(currentYear: int)
    requires currentYear >= 2020
    ensures FindByMeterIdAndYearAndMonth(Seed, currentYear, Some(1), Some(2020), Some(1))
            == Success(MonthlyView(2020, map["January" := 11]))
  {
    SeedWellFormed();
    assert MeterOneRows[0] in Seed.rows;
  }

  /** Meter 1 has no December 2021: the not-found message names the month. */
  lemma SeedMissingMonth(currentYear: int)
    requires currentYear >= 2021
    ensures FindByMeterIdAndYearAndMonth(Seed, currentYear, Some(1), Some(2021), Some(12))
            == Failure(ReadingNotFound(1, 2021, "December"))
  {
    assert FindByMeterIdAndYearAndMonth(Seed, currentYear, Some(1), Some(2021), Some(12))
           == Failure(ReadingNotFound(1, 2021, MonthName(12))) by {
      SeedAllIn2020();
      assert forall x :: x in Seed.rows ==> !ByMonth(1, 2021, 12).Holds(x);
    }
    assert MonthName(12) == "December";
  }

  /** Saving February 2020 for meter 1 again fails with "already exists" and leaves the store
      as it was. */
  lemma SeedDuplicateSave(currentYear: int)
    requires currentYear >= 2020
    ensures SaveMeterReading(Seed, currentYear, Some(Input(2020, 2, 15, 1)))
            == Saved(Failure(ReadingAlreadyExists(1, 2020, "February")), Seed)
  {
    assert TupleUnique(Seed.rows) by {
      SeedWellFormed();
    }
    SaveDuplicate(Seed, currentYear, Input(2020, 2, 15, 1), MeterOneRows[1]);
  }

  /** Saving January 2021 for meter 1 succeeds and echoes the input. */
  lemma SeedSaveNew(currentYear: int)
    requires currentYear >= 2021
    ensures SaveMeterReading(Seed, currentYear, Some(Input(2021, 1, 15, 1))).result == Success(Input(2021, 1, 15, 1))
  {
    assert forall x :: x in Seed.rows ==> !ByMonth(1, 2021, 1).Holds(x) by {
      SeedAllIn2020();
    }
    assert IsValidInput(Input(2021, 1, 15, 1), Seed.meters, currentYear);
  }

  /** The month query finds meter 1's March 2020 reading, 9 units, and nothing for May 2021. */
  lemma SeedFindReading()
    ensures FindReading(Seed.rows, 1, 2020, 3) == Success(Some(Reading(3, 1, 2020, 3, 9)))
    ensures FindReading(Seed.rows, 1, 2021, 5) == Success(None)
  {
    assert FindReading(Seed.rows, 1, 2020, 3) == Success(Some(MeterOneRows[2])) by {
      SeedWellFormed();
      assert MeterOneRows[2] in Seed.rows;
      FindReadingOfUnique(Seed.rows, MeterOneRows[2]);
    }
    assert forall x :: x in Seed.rows ==> !ByMonth(1, 2021, 5).Holds(x) by {
      SeedAllIn2020();
    }
  }

  /** Reading 1 exists and reading 100 does not; once reading 1 is deleted it is gone. */
  lemma SeedExistsAndDelete()
    ensures ExistsById(Seed.rows, 1) && !ExistsById(Seed.rows, 100)
    ensures DeleteById(Seed.rows, 1).Success? && FindById(DeleteById(Seed.rows, 1).value, 1) == None
  {
    assert ExistsById(Seed.rows, 1) by {
      assert MeterOneRows[0] in Seed.rows;
    }
    assert !ExistsById(Seed.rows, 100) by {
      MeterOneShape();
      MeterTwoShape();
      assert forall x :: x in MeterOneRows + MeterTwoRows ==> x in MeterOneRows || x in MeterTwoRows;
    }
  }

  /** A DTO naming a missing meter fails on the meter before its year is looked at; with an
      existing meter the negative year is reported. */
  lemma SeedValidationOrder(currentYear: int)
    ensures ValidateMeterReadingDto(Some(Blank.(meterId := Some(10), year := Some(-1))), Seed.meters, currentYear)
            == Fail(MeterNotFound(10))
    ensures ValidateMeterReadingDto(Some(Blank.(meterId := Some(1), year := Some(-1))), Seed.meters, currentYear)
            == Fail(YearNegative)
  {
  }
}

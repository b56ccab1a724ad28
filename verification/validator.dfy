/** The fail-fast input checks of `Validator`. Each check tests its rules in a fixed order and
    fails with the first message that applies; the wall clock's year and the stored ids are
    passed in, so every check is a pure function that cannot change the store. */
module Validator {
  import opened Wrappers
  import opened Errors
  import opened Months
  import opened Dto

  /** `validateMeterId`: present, positive, and an existing meter. */
  function ValidateMeterId(id: Option<int>, meters: set<int>): (o: Outcome<Error>)
    ensures o.Pass? <==> id.Some? && id.value > 0 && id.value in meters
    ensures id.None? ==> o == Fail(MeterIdNull)
    ensures id.Some? && id.value <= 0 ==> o == Fail(MeterIdNotPositive)
    ensures id.Some? && id.value > 0 && id.value !in meters ==> o == Fail(MeterNotFound(id.value))
  {
    match id
    case None => Fail(MeterIdNull)
    case Some(v) =>
      if !(v > 0) then Fail(MeterIdNotPositive)
      else if v !in meters then Fail(MeterNotFound(v))
      else Pass
  }

  /** `validateYear`: present, not negative, and not after `currentYear` (the clock's year). */
  function ValidateYear(year: Option<int>, currentYear: int): (o: Outcome<Error>)
    ensures o.Pass? <==> year.Some? && 0 <= year.value <= currentYear
    ensures year.None? ==> o == Fail(YearNull)
    ensures year.Some? && year.value < 0 ==> o == Fail(YearNegative)
    ensures year.Some? && 0 <= year.value && currentYear < year.value ==> o == Fail(YearInFuture)
  {
    match year
    case None => Fail(YearNull)
    case Some(y) =>
      if !(y >= 0) then Fail(YearNegative)
      else if !(y <= currentYear) then Fail(YearInFuture)
      else Pass
  }

  /** `validateMonth`: present and one of the months `Month.of` accepts. */
  function ValidateMonth(month: Option<int>): (o: Outcome<Error>)
    ensures o.Pass? <==> month.Some? && IsMonth(month.value)
    ensures o.Pass? ==> MonthOf(month.value).Some?
    ensures month.None? ==> o == Fail(MonthNull)
    ensures month.Some? && !IsMonth(month.value) ==> o == Fail(MonthOutOfRange)
  {
    match month
    case None => Fail(MonthNull)
    case Some(m) => if !(m >= 1 && m <= 12) then Fail(MonthOutOfRange) else Pass
  }

  /** `validateEnergyConsumed`: present and not negative. */
  function ValidateEnergyConsumed(energyConsumed: Option<int>): (o: Outcome<Error>)
    ensures o.Pass? <==> energyConsumed.Some? && energyConsumed.value >= 0
    ensures energyConsumed.None? ==> o == Fail(EnergyNull)
    ensures energyConsumed.Some? && energyConsumed.value < 0 ==> o == Fail(EnergyNegative)
  {
    match energyConsumed
    case None => Fail(EnergyNull)
    case Some(e) => if !(e >= 0) then Fail(EnergyNegative) else Pass
  }

  /** The input a save accepts: every field it reads present and in range. */
  predicate IsValidInput(d: MeterReadingDto, meters: set<int>, currentYear: int) {
    && d.meterId.Some? && d.meterId.value > 0 && d.meterId.value in meters
    && d.year.Some? && 0 <= d.year.value <= currentYear
    && d.month.Some? && IsMonth(d.month.value)
    && d.energyConsumed.Some? && d.energyConsumed.value >= 0
  }

  /** `validateMeterReadingDTO`: a present DTO, then meter id, year, month and energy consumed
      in that order. */
  function ValidateMeterReadingDto(dto: Option<MeterReadingDto>, meters: set<int>, currentYear: int): (o: Outcome<Error>)
    ensures o.Pass? <==> dto.Some? && IsValidInput(dto.value, meters, currentYear)
    ensures dto.None? ==> o == Fail(ReadingNull)
  {
    match dto
    case None => Fail(ReadingNull)
    case Some(d) =>
      if ValidateMeterId(d.meterId, meters).Fail? then ValidateMeterId(d.meterId, meters)
      else if ValidateYear(d.year, currentYear).Fail? then ValidateYear(d.year, currentYear)
      else if ValidateMonth(d.month).Fail? then ValidateMonth(d.month)
      else ValidateEnergyConsumed(d.energyConsumed)
  }

  /** `validateMeterReadingId`: present, positive, and the id of a stored reading. */
  function ValidateMeterReadingId(id: Option<int>, readingIds: set<int>): (o: Outcome<Error>)
    ensures o.Pass? <==> id.Some? && id.value > 0 && id.value in readingIds
    ensures id.None? ==> o == Fail(ReadingIdNull)
    ensures id.Some? && id.value <= 0 ==> o == Fail(ReadingIdNotPositive)
    ensures id.Some? && id.value > 0 && id.value !in readingIds ==> o == Fail(ReadingIdNotFound(id.value))
  {
    match id
    case None => Fail(ReadingIdNull)
    case Some(v) =>
      if !(v > 0) then Fail(ReadingIdNotPositive)
      else if v !in readingIds then Fail(ReadingIdNotFound(v))
      else Pass
  }

  /** The DTO check is the first failure among the four field checks, in the order meter id,
      year, month, energy consumed. */
  lemma ValidateDtoIsFirstFieldFailure(d: MeterReadingDto, meters: set<int>, currentYear: int)
    ensures ValidateMeterReadingDto(Some(d), meters, currentYear)
            == FirstFailure([ValidateMeterId(d.meterId, meters), ValidateYear(d.year, currentYear),
                             ValidateMonth(d.month), ValidateEnergyConsumed(d.energyConsumed)])
  {
    var os := [ValidateMeterId(d.meterId, meters), ValidateYear(d.year, currentYear),
               ValidateMonth(d.month), ValidateEnergyConsumed(d.energyConsumed)];
    var t1, t2, t3 := os[1..], os[1..][1..], os[1..][1..][1..];
    assert t1 == os[1..] && t1[0] == os[1];
    assert t2 == t1[1..] && t2[0] == os[2];
    assert t3 == t2[1..] && t3[0] == os[3] && t3[1..] == [];
    assert FirstFailure(t3) == os[3];
  }

  /** The meter store is consulted only for a present, positive id. */
  lemma MeterIdStoreOnlyForPositive(id: Option<int>, meters: set<int>, others: set<int>)
    requires id.None? || id.value <= 0
    ensures ValidateMeterId(id, meters) == ValidateMeterId(id, others)
  {
  }

  /** A year accepted now is accepted in every later year. */
  lemma ValidYearStaysValid(year: Option<int>, currentYear: int, laterYear: int)
    requires currentYear <= laterYear
    requires ValidateYear(year, currentYear).Pass?
    ensures ValidateYear(year, laterYear).Pass?
  {
  }
}

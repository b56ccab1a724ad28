# meter-readings in Dafny

A functional model of the decision logic of the meter-readings service, a Spring application. The service keeps one
energy-consumption reading per meter and month. It can compute a meter's yearly total, build its month-by-month
breakdown for a year, look up a single month, and save a new reading.

The model covers three parts of the service:

- **Validator** (`validator.dfy`). These are fail-fast checks on nullable integers.
  - Each check returns `Pass` or the first failing rule as an `Error`.
  - Each `Error` constructor raised by the validator or the service is one message template of the Java code
    (`errors.dfy`). Four further constructors stand for exceptions thrown by library code.
  - Java's `null` is `Option.None`.
  - The wall clock's year (`Year.now()`) is an explicit `currentYear` parameter.
  - The meter table and the reading table enter the checks only as sets of ids.
- **MeterServiceImpl** (`service.dfy`). These are pure functions over a store `Db(meters, rows)`.
  - Read operations return only a `Result`.
  - The save operation returns a `Saved` pair: the result and the store it leaves behind.
  - `IllegalArgumentException` and `ResourceNotFoundException` are `Failure` values. `Error.IsIllegalArgument` and
    `Error.IsNotFound` say which of the two applies.
- **MeterReadingRepository** (`repository.dfy`). These are pure queries over `seq<Reading>` in storage order.
  - The SUM query is `None`, not 0, when no row matches.
  - The year query returns exactly the matching rows.
  - The single-row month query returns the match or `None`.
  - JPA `save` of a new entity appends a row under a fresh id.
  - `findById`, `existsById` and `deleteById` are modelled as well.

Supporting modules:

- `Months` renders a month number as its full English name, as `Month.of(m).getDisplayName(FULL, ENGLISH)` does. It
  also parses the name back.
- `Wrappers` holds `Option`, `Result` and `Outcome`.
- `Dto` holds the all-nullable `MeterReadingDTO`.
- `Scenarios` restates the outcomes that the repository's integration and repository tests expect. The data is the
  integration test's seed. The repository tests load their data outside this code; the model assumes it is the same
  seed, which agrees with their expected values. The seed has:
  - meters 1, 2 and 3;
  - twelve 2020 readings for each of meters 1 and 2.

Three facts about the code shape the model:

- `MeterServiceImpl` has no update or delete operation, although `MeterController` calls both.
- Saving a reading whose `(meterId, year, month)` is stored in exactly one row throws an `IllegalArgumentException`,
  the same exception class as a rejected input. With two or more such rows the single-result lookup throws first.
- The METER_READING table does not enforce one row per `(meterId, year, month)` (`Repository.SaveRepeatsTuple`;
  MeterRepositoryUnitTest.java:88-101 saves such a second row). Only the lookup in `saveMeterReading` keeps that
  invariant.

Library behaviour that the Java code relies on implicitly is modelled as explicit failures:

- `Collectors.toMap` without a merge function throws on a repeated month name (`DuplicateMonthKey`).
- `Month.of` throws outside 1..12 (`InvalidMonth`).
- A single-result query that finds two rows throws (`NonUniqueResult`).
- `deleteById` of an unknown id throws (`NoReadingWithId`).

Lemmas show that the first three cannot happen on a store the service can have produced (`Repository.WellFormed`):
`MeterService.FindByYearErrorKinds`, `MeterService.FindByMonthErrorKinds` and `MeterService.SaveErrorKinds`.

## Model

| member | source | states |
|---|---|---|
| Validator.ValidateMeterId | src/main/java/dev/scibaric/meterreadings/validator/Validator.java:34-38 | passes exactly for a present, positive id of an existing meter; otherwise fails with the null, not-positive or does-not-exist message, checked in that order |
| Validator.MeterIdStoreOnlyForPositive | src/main/java/dev/scibaric/meterreadings/validator/Validator.java:35-37 | for a null or non-positive id the outcome does not depend on which meters exist: the existence check is reached only for positive ids |
| Validator.ValidateYear | src/main/java/dev/scibaric/meterreadings/validator/Validator.java:47-51 | passes exactly for a present year in `[0, currentYear]` (year 0 included); otherwise null, negative or in-the-future, in that order |
| Validator.ValidYearStaysValid | src/main/java/dev/scibaric/meterreadings/validator/Validator.java:50 | a year accepted in one calendar year is accepted in every later one |
| Validator.ValidateMonth | src/main/java/dev/scibaric/meterreadings/validator/Validator.java:60-63 | passes exactly for a present month in 1..12, which is exactly when `Month.of` has a name for it; otherwise the null or out-of-range message |
| Validator.ValidateEnergyConsumed | src/main/java/dev/scibaric/meterreadings/validator/Validator.java:72-75 | passes exactly for a present, non-negative value; otherwise the null or negative message |
| Validator.ValidateMeterReadingDto | src/main/java/dev/scibaric/meterreadings/validator/Validator.java:85-91 | a null DTO fails with "Meter reading must not be null"; a DTO passes exactly when all four of its fields are valid |
| Validator.ValidateDtoIsFirstFieldFailure | src/main/java/dev/scibaric/meterreadings/validator/Validator.java:86-90 | the DTO check is the first failure among the meter-id, year, month and energy checks, in that order |
| Validator.ValidateMeterReadingId | src/main/java/dev/scibaric/meterreadings/validator/Validator.java:100-105 | passes exactly for a present, positive id of a stored reading; otherwise null, not-positive or does-not-exist, in that order |
| Wrappers.FirstFailure | src/main/java/dev/scibaric/meterreadings/validator/Validator.java:85-91 | a sequence of checks passes exactly when every check passes; otherwise the result is the failure of a check all of whose predecessors pass |
| Months.MonthName | src/main/java/dev/scibaric/meterreadings/service/MeterServiceImpl.java:117-119 | every month in 1..12 has a full English name that parses back to the same month |
| Months.MonthOf | src/main/java/dev/scibaric/meterreadings/service/MeterServiceImpl.java:118 | `Month.of` yields a name exactly for months in 1..12, and that name parses back to the month it was given |
| Months.MonthNumber | src/main/java/dev/scibaric/meterreadings/service/MeterServiceImpl.java:117-119 | every name that parses denotes a month in 1..12 |
| Months.MonthNumberRoundTrip | src/main/java/dev/scibaric/meterreadings/service/MeterServiceImpl.java:117-119 | every name that parses is the English name of the month it parses to |
| Months.MonthNameInjective | src/main/java/dev/scibaric/meterreadings/service/MeterServiceImpl.java:62-63 | two months share a name only if they are the same month, so month names can key the breakdown map |
| Repository.Select | src/main/java/dev/scibaric/meterreadings/repository/MeterReadingRepository.java:35 | a finder returns exactly the stored rows that satisfy its WHERE clause, and never more rows than are stored |
| Repository.SumConsumption | src/main/java/dev/scibaric/meterreadings/repository/MeterReadingRepository.java:24-26 | the SUM is absent (SQL NULL) exactly when no row of that meter and year is stored |
| Repository.SumConsumptionIsTotalOfFound | src/main/java/dev/scibaric/meterreadings/repository/MeterReadingRepository.java:24-35 | the SUM query is the total of `energyConsumed` over the rows the year query returns, and absent exactly when that list is empty |
| Repository.FindReadings | src/main/java/dev/scibaric/meterreadings/repository/MeterReadingRepository.java:35 | the year query returns exactly the rows of that meter and year, and an empty list when there are none |
| Repository.FindReading | src/main/java/dev/scibaric/meterreadings/repository/MeterReadingRepository.java:45 | the month query returns no row exactly when none matches. It throws a non-unique-result exception exactly when two or more rows match, which only a store breaking the uniqueness invariant allows. A row it returns is the one and only matching row |
| Repository.SelectByMonthAtMostOne | src/main/java/dev/scibaric/meterreadings/repository/MeterReadingRepository.java:45 | with one row per `(meterId, year, month)`, the month query selects at most one row |
| Repository.FindReadingOfUnique | src/main/java/dev/scibaric/meterreadings/repository/MeterReadingRepository.java:45 | with one row per `(meterId, year, month)`, the month query returns exactly the stored row of that key |
| Repository.SelectNone | src/main/java/dev/scibaric/meterreadings/repository/MeterReadingRepository.java:35 | a query that no stored row satisfies returns the empty list |
| Repository.SelectAll | src/main/java/dev/scibaric/meterreadings/repository/MeterReadingRepository.java:35 | a query that every stored row satisfies returns all rows in storage order |
| Repository.SelectConcat | src/main/java/dev/scibaric/meterreadings/repository/MeterReadingRepository.java:35 | querying two stretches of rows returns the matches of the first followed by those of the second |
| Repository.SelectPrefix | src/main/java/dev/scibaric/meterreadings/repository/MeterReadingRepository.java:35 | a query that holds on every row of a prefix and on no row after it returns exactly that prefix |
| Repository.TupleUniqueTail | src/main/java/dev/scibaric/meterreadings/repository/MeterReadingRepository.java:45 | dropping the first stored row keeps one row per `(meterId, year, month)` |
| Repository.HeadTupleUnique | src/main/java/dev/scibaric/meterreadings/repository/MeterReadingRepository.java:45 | with one row per key, no later row shares the first row's `(meterId, year, month)` |
| Repository.NextId | src/test/java/dev/scibaric/meterreadings/repository/MeterRepositoryUnitTest.java:76-86 | the id a new row receives is positive and not the id of any stored row |
| Repository.FindById | src/test/java/dev/scibaric/meterreadings/repository/MeterRepositoryUnitTest.java:76-86 | `findById` is empty exactly for ids not stored; a row it returns is stored and carries that id |
| Repository.ExistsById | src/test/java/dev/scibaric/meterreadings/repository/MeterRepositoryUnitTest.java:113-120 | `existsById` holds exactly when some stored row has that id |
| Repository.Save | src/test/java/dev/scibaric/meterreadings/repository/MeterRepositoryUnitTest.java:76-86 | saving a new entity adds exactly one row after the stored ones, and adds exactly the fresh id to the stored ids |
| Repository.SaveThenFindById | src/test/java/dev/scibaric/meterreadings/repository/MeterRepositoryUnitTest.java:76-86 | the saved row is found again by its new id, with the saved meter, year, month and energy |
| Repository.FindByIdPastEnd | src/test/java/dev/scibaric/meterreadings/repository/MeterRepositoryUnitTest.java:76-86 | a row appended under an id not yet stored is what `findById` returns for that id |
| Repository.SaveKeepsIdsUnique | src/test/java/dev/scibaric/meterreadings/repository/MeterRepositoryUnitTest.java:76-86 | saving a new entity keeps primary keys unique |
| Repository.SaveKeepsTupleUnique | src/main/java/dev/scibaric/meterreadings/service/MeterServiceImpl.java:92-103 | saving a reading whose `(meterId, year, month)` is not stored keeps one row per key |
| Repository.SaveRepeatsTuple | src/test/java/dev/scibaric/meterreadings/repository/MeterRepositoryUnitTest.java:88-101 | the table accepts a second row for a stored `(meterId, year, month)`, which breaks one row per key: the table itself does not enforce it |
| Repository.RemoveId | src/test/java/dev/scibaric/meterreadings/repository/MeterRepositoryUnitTest.java:103-111 | removing an id keeps exactly the stored rows with other ids |
| Repository.DeleteById | src/test/java/dev/scibaric/meterreadings/repository/MeterRepositoryUnitTest.java:103-111 | `deleteById` fails exactly for an id not stored; on success the id is gone and every other row stays |
| MeterService.ValidateMeterIdAndYear | src/main/java/dev/scibaric/meterreadings/service/MeterServiceImpl.java:37-38 | the validation every read operation starts with passes exactly for a valid meter id and year, and otherwise is the first failure of the meter-id check and then the year check |
| MeterService.AggregateConsumption | src/main/java/dev/scibaric/meterreadings/service/MeterServiceImpl.java:36-50 | meter-id failures come first and year failures second. The result succeeds exactly for a valid meter and year that have a reading, and is then the year with the total of that year's rows. Otherwise it is "Meter readings … does not exist" |
| MeterService.AggregateOfFound | src/main/java/dev/scibaric/meterreadings/service/MeterServiceImpl.java:40-49 | for a valid meter and year whose year query is non-empty, the total is the sum over the rows that query returns |
| MeterService.AggregateErrorKinds | src/main/java/dev/scibaric/meterreadings/service/MeterServiceImpl.java:36-50 | the yearly total fails only with a rejected input or a not-found |
| MeterService.CollectMonths | src/main/java/dev/scibaric/meterreadings/service/MeterServiceImpl.java:62-63 | the month collector succeeds exactly when every month is in range and no month repeats. It then yields a map from each row's month name to its energy, with one entry per row. Otherwise it fails with the `Month.of` or the duplicate-key exception |
| MeterService.CollectStepDuplicate | src/main/java/dev/scibaric/meterreadings/service/MeterServiceImpl.java:62-63 | a row whose month name is already a key repeats an earlier row's month |
| MeterService.CollectStepFresh | src/main/java/dev/scibaric/meterreadings/service/MeterServiceImpl.java:62-63 | a row whose month name is not yet a key keeps the months distinct and in range |
| MeterService.CollectStepExtend | src/main/java/dev/scibaric/meterreadings/service/MeterServiceImpl.java:62-63 | entering a row with a new month name extends the breakdown by exactly that entry |
| MeterService.FindByMeterIdAndYear | src/main/java/dev/scibaric/meterreadings/service/MeterServiceImpl.java:53-70 | validation failures come first, then "Meter readings … does not exist" when the year has no rows, never an empty map. For a non-empty year it succeeds exactly when the months are valid and distinct. It then returns the year and a breakdown keyed by month name, with one entry per row. Otherwise it fails with the `Month.of` or the duplicate-key exception, never with not-found |
| MeterService.FoundMonthsDistinct | src/main/java/dev/scibaric/meterreadings/service/MeterServiceImpl.java:57-63 | with one row per `(meterId, year, month)`, the rows of one meter's year have pairwise distinct months |
| MeterService.DistinctCons | src/main/java/dev/scibaric/meterreadings/service/MeterServiceImpl.java:62-63 | a row put in front of rows with distinct months, none of them its own, keeps the months distinct |
| MeterService.FoundMonthsValid | src/main/java/dev/scibaric/meterreadings/service/MeterServiceImpl.java:57-63 | the rows of one meter's year have months in range when all stored rows do |
| MeterService.FindByYearOnWellFormedStore | src/main/java/dev/scibaric/meterreadings/service/MeterServiceImpl.java:53-70 | on a store the service can have produced, the breakdown succeeds for every valid meter and year with a reading |
| MeterService.FindByYearErrorKinds | src/main/java/dev/scibaric/meterreadings/service/MeterServiceImpl.java:53-70 | on a store the service can have produced, the breakdown fails only with a rejected input or a not-found |
| MeterService.ToMonthlyView | src/main/java/dev/scibaric/meterreadings/service/MeterServiceImpl.java:108-115 | the single-month view carries the row's year and one entry. The key names the row's month and the value is the row's energy. Every other field is null |
| MeterService.FindByMeterIdAndYearAndMonth | src/main/java/dev/scibaric/meterreadings/service/MeterServiceImpl.java:73-85 | meter-id, year and month failures come in that order. A missing row gives "Meter reading … and month <name> does not exist". A success is the single-entry view of a matching row. When exactly one row has that key the result is that row's view, whatever other keys are stored twice. When two or more rows match it fails with the non-unique-result exception |
| MeterService.OnlyMatch | src/main/java/dev/scibaric/meterreadings/service/MeterServiceImpl.java:79 | with one row per key, two rows that match the same month query are the same row |
| MeterService.FindByMonthErrorKinds | src/main/java/dev/scibaric/meterreadings/service/MeterServiceImpl.java:73-85 | with one row per key, the month lookup fails only with a rejected input or a not-found |
| MeterService.SaveMeterReading | src/main/java/dev/scibaric/meterreadings/service/MeterServiceImpl.java:88-106 | a rejected DTO fails with the validator's message and leaves the store alone. A valid DTO fails exactly when its `(meterId, year, month)` is stored, with the store unchanged. When at most one row has that key the failure is "… already exists"; with two or more rows for the key it is the non-unique-result exception. Otherwise it echoes the DTO and appends exactly one row with a fresh id and the DTO's values. One row per key and well-formedness are preserved |
| MeterService.SaveDuplicate | src/main/java/dev/scibaric/meterreadings/service/MeterServiceImpl.java:92-99 | with one row per key, saving a valid reading whose key is already stored fails with "already exists", naming the month, and changes nothing |
| MeterService.SavedRowIsOnlyMatch | src/main/java/dev/scibaric/meterreadings/service/MeterServiceImpl.java:101-103 | after a successful save, the month query on the saved key selects exactly the new row |
| MeterService.SaveThenFindByMonth | src/main/java/dev/scibaric/meterreadings/service/MeterServiceImpl.java:73-106 | after a successful save, the month lookup on the saved key returns exactly the saved energy under the month's name |
| MeterService.SaveTwiceFails | src/main/java/dev/scibaric/meterreadings/service/MeterServiceImpl.java:92-103 | saving a second reading for a key just saved fails with "already exists" and changes nothing |
| MeterService.SaveErrorKinds | src/main/java/dev/scibaric/meterreadings/service/MeterServiceImpl.java:88-106 | with one row per key, a save fails only with an `IllegalArgumentException` |
| Scenarios.MeterOneShape | src/test/java/dev/scibaric/meterreadings/controller/MeterControllerIntegrationTest.java:90-101 | the seeded rows of meter 1 are from 2020, with ids 1 to 12 |
| Scenarios.MeterTwoShape | src/test/java/dev/scibaric/meterreadings/controller/MeterControllerIntegrationTest.java:102-113 | the seeded rows of meter 2 are from 2020, with ids 13 to 24 |
| Scenarios.SeedAllIn2020 | src/test/java/dev/scibaric/meterreadings/controller/MeterControllerIntegrationTest.java:88-113 | every seeded reading is from 2020 |
| Scenarios.SeedWellFormed | src/test/java/dev/scibaric/meterreadings/controller/MeterControllerIntegrationTest.java:88-113 | the seeded store has one row per key, unique ids and months in range |
| Scenarios.SeedYearRows | src/test/java/dev/scibaric/meterreadings/repository/MeterRepositoryUnitTest.java:38-46 | the year query for meter 1 and 2020 returns its twelve rows |
| Scenarios.SeedAggregate | src/test/java/dev/scibaric/meterreadings/controller/MeterControllerIntegrationTest.java:119-126 | meter 1's 2020 total is 195 |
| Scenarios.SeedMissingYear | src/test/java/dev/scibaric/meterreadings/controller/MeterControllerIntegrationTest.java:128-138 | for meter 1 and 2021 both the total and the breakdown fail with "Meter readings for meter id 1 and year 2021 does not exist" |
| Scenarios.SeedYearBreakdown | src/test/java/dev/scibaric/meterreadings/controller/MeterControllerIntegrationTest.java:197-205 | meter 1's 2020 breakdown has twelve entries and January is 11 |
| Scenarios.SeedJanuary | src/test/java/dev/scibaric/meterreadings/controller/MeterControllerIntegrationTest.java:207-215 | meter 1's January 2020 is the single entry January with 11 |
| Scenarios.SeedMissingMonth | src/test/java/dev/scibaric/meterreadings/controller/MeterControllerIntegrationTest.java:217-228 | meter 1's December 2021 fails with the not-found message naming "December" |
| Scenarios.SeedFindReading | src/test/java/dev/scibaric/meterreadings/repository/MeterRepositoryUnitTest.java:57-74 | the month query finds meter 1's March 2020 reading, with energy 9, and nothing for May 2021 |
| Scenarios.SeedDuplicateSave | src/test/java/dev/scibaric/meterreadings/controller/MeterControllerIntegrationTest.java:295-305 | saving meter 1's February 2020 again fails with "… and month February already exists" and leaves the store as it was |
| Scenarios.SeedSaveNew | src/test/java/dev/scibaric/meterreadings/controller/MeterControllerIntegrationTest.java:239-254 | saving meter 1's January 2021 succeeds and echoes the input |
| Scenarios.SeedExistsAndDelete | src/test/java/dev/scibaric/meterreadings/repository/MeterRepositoryUnitTest.java:103-120 | reading 1 exists and reading 100 does not; after reading 1 is deleted, `findById(1)` is empty |
| Scenarios.SeedValidationOrder | src/test/java/dev/scibaric/meterreadings/validator/ValidatorUnitTest.java:248-265 | an unknown meter is reported before a negative year; with an existing meter the negative year is reported |

## Left out

- The HTTP layer is not modelled: `MeterController`, `ExceptionHandlerController` and `ApiExceptionResponse`. This
  covers routing, status codes, JSON rendering and the response timestamp. `Error.IsIllegalArgument`,
  `Error.IsNotFound` and `Error.IsUnexpected` only record which exception class is thrown.
- The update and delete service operations are not modelled. The controller calls them, but neither is declared in
  `MeterService` nor implemented in `MeterServiceImpl`. Reading-id validation is modelled by
  `Validator.ValidateMeterReadingId`.
- JPA entities are not modelled: `Meter`, `Client`, `Address` and the entity graph. A reading is a flat row whose
  `meterId` stands for the joined meter. The meter table is only the set of existing meter ids.
- `Year.now()` is not modelled. The current year is a parameter.
- Java `Integer` arithmetic is not modelled. Ids, years and energies are unbounded integers, so a SUM that would
  overflow a 32-bit `Integer` is not modelled.
- Transactions and concurrent saves are not modelled. Each operation is a single, atomic function of the store.
- The row order of the finder queries is not modelled. The model returns rows in storage order. No property depends
  on the order except the left-to-right detection of a repeated month.
- The IDENTITY column's actual value is not modelled. `Repository.NextId` hands out one past the largest id, which is
  one valid choice of a fresh id.
- `Error.Template`: the texts of `DuplicateMonthKey`, `InvalidMonth`, `NonUniqueResult` and `NoReadingWithId` are only
  indicative. Those messages come from the JDK and Spring Data, not from this code. They reach a client only as the
  generic 500 "Service error" of `ExceptionHandlerController`.
- `Error.Template` records the message templates. String formatting of `%d`/`%s` is not modelled: the errors carry
  their arguments as fields instead.
- The application bootstrap (`MeterReadingsApplication`) is not modelled.
- The validators are pure functions of their arguments. That they leave the meter and reading tables unchanged follows
  from their signatures, so it is not stated as a separate contract.
- MeterService.ToMonthlyView: requires a month in 1..12 instead of modelling `Month.of`'s exception. Its only caller
  passes a row that matched an already validated month, so the exception cannot arise there.
- The mock-based controller and service unit tests are not modelled. Their stubbed messages disagree with the real
  `Validator`.

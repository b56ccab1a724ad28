/** The single transfer object used both for input and for every view the service returns. */
module Dto {
  import opened Wrappers

  /** Every field is nullable; absent fields are left out of the JSON rendering. */
  datatype MeterReadingDto = MeterReadingDto(
    id: Option<int>,
    year: Option<int>,
    month: Option<int>,
    total: Option<int>,
    energyConsumed: Option<int>,
    monthlyEnergyConsumption: Option<map<string, int>>,
    meterId: Option<int>)

  /** The no-argument constructor: every field null. */
  const Blank := MeterReadingDto(None, None, None, None, None, None, None)

  /** The `(year, month, energyConsumed, meterId)` constructor used for input. */
  function Input(year: int, month: int, energyConsumed: int, meterId: int): MeterReadingDto {
    Blank.(year := Some(year), month := Some(month), energyConsumed := Some(energyConsumed), meterId := Some(meterId))
  }

  /** The yearly aggregate view: only `year` and `total` are set. */
  function TotalView(year: int, total: int): MeterReadingDto {
    Blank.(year := Some(year), total := Some(total))
  }

  /** The `(year, monthlyEnergyConsumption)` constructor used for monthly views. */
  function MonthlyView(year: int, monthly: map<string, int>): MeterReadingDto {
    Blank.(year := Some(year), monthlyEnergyConsumption := Some(monthly))
  }
}

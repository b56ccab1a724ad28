/** Calendar months and their full English names, as `java.time.Month` renders them
    with `TextStyle.FULL` and `Locale.ENGLISH`. */
module Months {
  import opened Wrappers

  /** The month numbers `Month.of` accepts. */
  predicate IsMonth(m: int) {
    1 <= m <= 12
  }

  /** The full English name of month `m`, in calendar order from "January" to "December". */
  function MonthName(m: int): (name: string)
    requires IsMonth(m)
    ensures MonthNumber(name) == Some(m)
  {
    match m
    case 1 => "January"
    case 2 => "February"
    case 3 => "March"
    case 4 => "April"
    case 5 => "May"
    case 6 => "June"
    case 7 => "July"
    case 8 => "August"
    case 9 => "September"
    case 10 => "October"
    case 11 => "November"
    case 12 => "December"
  }

  /** `Month.of(m)`: the name of a month in range, `None` where Java throws `DateTimeException`. */
  function MonthOf(m: int): (name: Option<string>)
    ensures name.Some? <==> IsMonth(m)
    ensures name.Some? ==> MonthNumber(name.value) == Some(m)
  {
    if IsMonth(m) then Some(MonthName(m)) else None
  }

  /** Parses a full English month name back to its number; the inverse of `MonthName`. */
  function MonthNumber(name: string): (m: Option<int>)
    ensures m.Some? ==> IsMonth(m.value)
  {
    if name == "January" then Some(1)
    else if name == "February" then Some(2)
    else if name == "March" then Some(3)
    else if name == "April" then Some(4)
    else if name == "May" then Some(5)
    else if name == "June" then Some(6)
    else if name == "July" then Some(7)
    else if name == "August" then Some(8)
    else if name == "September" then Some(9)
    else if name == "October" then Some(10)
    else if name == "November" then Some(11)
    else if name == "December" then Some(12)
    else None
  }

  /** Every name that parses is the name of the month it parses to. */
  lemma MonthNumberRoundTrip(name: string)
    requires MonthNumber(name).Some?
    ensures MonthName(MonthNumber(name).value) == name
  {
  }

  /** Distinct months have distinct names, so names can key a map of months. */
  lemma MonthNameInjective(a: int, b: int)
    requires IsMonth(a) && IsMonth(b)
    ensures MonthName(a) == MonthName(b) <==> a == b
  {
  }
}

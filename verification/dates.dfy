/** Calendar days. A `java.sql.Date` is only ever used here at day precision. */
module Dates {

  /** A day, counted from 1970-01-01 (day 0). */
  type Date = int

  /** The day number of the proleptic Gregorian date `y`-`m`-`d`. */
  function DaysFromCivil(y: int, m: int, d: int): Date
    requires 1 <= m <= 12 && 1 <= d <= 31
  {
    // Years start in March, so that the leap day is the last day of a year.
    var y' := if m <= 2 then y - 1 else y;
    // Dafny's `/` is Euclidean: with a positive divisor it rounds down, also for negative years.
    var era := y' / 400;
    var yearOfEra := y' - era * 400;
    var monthFromMarch := if m > 2 then m - 3 else m + 9;
    var dayOfYear := (153 * monthFromMarch + 2) / 5 + d - 1;
    var dayOfEra := yearOfEra * 365 + yearOfEra / 4 - yearOfEra / 100 + dayOfYear;
    era * 146097 + dayOfEra - 719468
  }
}

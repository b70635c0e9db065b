/**
 * Date ranges of the dashboard summaries. Timestamps are seconds and days
 * are day numbers, both in one time zone. The summaries bound a
 * transaction's timestamp by the range's dates rendered as `MM/dd/yyyy`,
 * which the database reads as midnight at the start of that day.
 */
module Periods {

  const SecondsPerDay: int := 86400

  /** The day a timestamp falls on (`date(datetime)`); `/` rounds down for a positive divisor. */
  function DayOf(datetime: int): int {
    datetime / SecondsPerDay
  }

  /** The timestamp a day's `MM/dd/yyyy` rendering compares as: the day's first second. */
  function Midnight(day: int): (r: int)
    ensures DayOf(r) == day
  {
    day * SecondsPerDay
  }

  /** The range test as written: `datetime >= start's midnight and datetime <= end's midnight`. */
  predicate InPeriodAsWritten(datetime: int, startDate: int, endDate: int) {
    Midnight(startDate) <= datetime <= Midnight(endDate)
  }

  /** Noon on the last day of a one-day range is outside the range as written. */
  lemma EndDayExcludedAsWritten()
    ensures var day := 20000;
            var noon := Midnight(day) + SecondsPerDay / 2;
            DayOf(noon) == day && !InPeriodAsWritten(noon, day, day)
  {
    var day := 20000;
    var noon := Midnight(day) + SecondsPerDay / 2;
    assert noon == 20000 * 86400 + 43200;
    assert DayOf(noon) == day;
  }

  /** As written, nothing after the end day's first second counts, though it is on the end day. */
  lemma AsWrittenCutsEndDay(datetime: int, startDate: int, endDate: int)
    requires DayOf(datetime) == endDate && datetime != Midnight(endDate)
    ensures !InPeriodAsWritten(datetime, startDate, endDate)
  {
  }

  /** The intended range test: the transaction's day lies between the two dates, both included. */
  predicate InPeriod(datetime: int, startDate: int, endDate: int) {
    startDate <= DayOf(datetime) <= endDate
  }

  /** The intended range covers every second of every day from the start date to the end date. */
  lemma InPeriodWholeDays(datetime: int, startDate: int, endDate: int)
    ensures InPeriod(datetime, startDate, endDate) <==>
            Midnight(startDate) <= datetime < Midnight(endDate + 1)
  {
    var d := DayOf(datetime);
    assert Midnight(d) <= datetime < Midnight(d + 1);
    if d < startDate {
      assert Midnight(d + 1) <= Midnight(startDate) by { MidnightMonotone(d + 1, startDate); }
    }
    if d > endDate {
      assert Midnight(endDate + 1) <= Midnight(d) by { MidnightMonotone(endDate + 1, d); }
    }
    if startDate <= d {
      MidnightMonotone(startDate, d);
    }
    if d <= endDate {
      MidnightMonotone(d + 1, endDate + 1);
    }
  }

  lemma MidnightMonotone(a: int, b: int)
    requires a <= b
    ensures Midnight(a) <= Midnight(b)
  {
  }

  /** What the range as written accepts, the intended range accepts too. */
  lemma AsWrittenWithinPeriod(datetime: int, startDate: int, endDate: int)
    requires InPeriodAsWritten(datetime, startDate, endDate)
    ensures InPeriod(datetime, startDate, endDate)
  {
    InPeriodWholeDays(datetime, startDate, endDate);
    MidnightMonotone(endDate, endDate + 1);
  }
}

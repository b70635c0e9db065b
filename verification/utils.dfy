/**
 * The pure helpers of the library layer: the shopping-item total, the
 * miliunit scaling of money, the period-over-period percentage and the
 * gap-filling of the daily chart series. Days are integer day numbers.
 */
module Utils {
  import opened Wrappers

  /** A shopping item's total: unit amount times quantity, less the discount, plus the tax. */
  function CalculateTotal(amount: real, quantity: int, discount: real, tax: real): (r: real)
    ensures quantity == 0 ==> r == tax - discount
    ensures quantity == 1 ==> r == amount - discount + tax
    ensures amount == 0.0 ==> r == tax - discount
  {
    amount * quantity as real - discount + tax
  }

  /** The price of `n` units, one unit at a time. */
  function UnitsPrice(amount: real, n: nat): real {
    if n == 0 then 0.0 else UnitsPrice(amount, n - 1) + amount
  }

  /** One more unit adds the unit amount; a larger discount or tax shifts the total by the same amount. */
  lemma CalculateTotalLinear(amount: real, quantity: int, discount: real, tax: real, delta: real)
    ensures CalculateTotal(amount, quantity + 1, discount, tax) == CalculateTotal(amount, quantity, discount, tax) + amount
    ensures CalculateTotal(amount, quantity, discount + delta, tax) == CalculateTotal(amount, quantity, discount, tax) - delta
    ensures CalculateTotal(amount, quantity, discount, tax + delta) == CalculateTotal(amount, quantity, discount, tax) + delta
  {
    assert amount * (quantity + 1) as real == amount * quantity as real + amount;
  }

  /** For a non-negative quantity the total is the units' price added up one by one, less discount, plus tax. */
  lemma {:induction false} CalculateTotalByUnits(amount: real, n: nat, discount: real, tax: real)
    ensures CalculateTotal(amount, n, discount, tax) == UnitsPrice(amount, n) - discount + tax
  {
    if n > 0 {
      CalculateTotalByUnits(amount, n - 1, discount, tax);
      CalculateTotalLinear(amount, n - 1, discount, tax, 0.0);
    }
  }

  /** Stored money is the display value scaled by this factor. */
  const MiliunitsPerUnit: real := 1000.0

  /** Display value to stored miliunits; scaling by a positive factor keeps sign and order. */
  function ConvertToMiliunits(value: real): (r: real)
    ensures r > 0.0 <==> value > 0.0
    ensures r < 0.0 <==> value < 0.0
    ensures r == 0.0 <==> value == 0.0
  {
    value * MiliunitsPerUnit
  }

  /** Stored miliunits to the display value; a thousandth keeps sign and order. */
  function ConvertFromMiliunits(value: real): (r: real)
    ensures r > 0.0 <==> value > 0.0
    ensures r < 0.0 <==> value < 0.0
    ensures r == 0.0 <==> value == 0.0
  {
    value / MiliunitsPerUnit
  }

  lemma MiliunitsRoundTrip(value: real)
    ensures ConvertFromMiliunits(ConvertToMiliunits(value)) == value
    ensures ConvertToMiliunits(ConvertFromMiliunits(value)) == value
  {
  }

  lemma ConvertToMiliunitsMonotone(a: real, b: real)
    ensures a < b <==> ConvertToMiliunits(a) < ConvertToMiliunits(b)
    ensures a == b <==> ConvertToMiliunits(a) == ConvertToMiliunits(b)
  {
  }

  /**
   * Change from the previous period to the current one, in percent. A zero
   * previous value gives 0 when nothing changed and a flat 100 otherwise.
   */
  function CalculatePercentageDifference(current: real, previous: real): (r: real)
    ensures previous == 0.0 && current == 0.0 ==> r == 0.0
    ensures previous == 0.0 && current != 0.0 ==> r == 100.0
    ensures previous != 0.0 ==> r * previous == (current - previous) * 100.0
    ensures current == previous ==> r == 0.0
  {
    if previous == 0.0 then (if previous == current then 0.0 else 100.0)
    else (current - previous) / previous * 100.0
  }

  /** The difference is positive exactly when the value moved away from zero's side of `previous`. */
  lemma PercentageDifferenceSign(current: real, previous: real)
    requires previous != 0.0
    ensures previous > 0.0 ==> (CalculatePercentageDifference(current, previous) > 0.0 <==> current > previous)
    ensures previous < 0.0 ==> (CalculatePercentageDifference(current, previous) > 0.0 <==> current < previous)
  {
    var r := CalculatePercentageDifference(current, previous);
    assert r * previous == (current - previous) * 100.0;
    SignOfProduct(r, previous);
  }

  lemma SignOfProduct(a: real, b: real)
    requires b != 0.0
    ensures b > 0.0 ==> (a > 0.0 <==> a * b > 0.0)
    ensures b < 0.0 ==> (a > 0.0 <==> a * b < 0.0)
  {
    if a > 0.0 {
      assert b > 0.0 ==> a * b > 0.0;
      assert b < 0.0 ==> a * b < 0.0;
    } else {
      assert b > 0.0 ==> a * b <= 0.0;
      assert b < 0.0 ==> a * b >= 0.0;
    }
  }

  /** One point of the income/expense chart. */
  datatype DayTotal = DayTotal(date: int, income: real, expense: real)

  /** The input entry for a day as a key-to-object map built from the list keeps it: the last one. */
  function LookupDay(dates: seq<DayTotal>, day: int): (r: Option<DayTotal>)
    ensures r.None? ==> forall i | 0 <= i < |dates| :: dates[i].date != day
    ensures r.Some? ==> exists i | 0 <= i < |dates| ::
              dates[i] == r.value && dates[i].date == day
              && forall j | i < j < |dates| :: dates[j].date != day
  {
    if |dates| == 0 then None
    else if dates[|dates| - 1].date == day then Some(dates[|dates| - 1])
    else
      var r := LookupDay(dates[..|dates| - 1], day);
      assert forall i | 0 <= i < |dates| - 1 :: dates[..|dates| - 1][i] == dates[i];
      r
  }

  /** The chart point of one day: the input's totals if it has an entry, else zero. */
  function FilledDay(dates: seq<DayTotal>, day: int): DayTotal {
    match LookupDay(dates, day)
    case None => DayTotal(day, 0.0, 0.0)
    case Some(e) => DayTotal(day, e.income, e.expense)
  }

  /** `count` consecutive chart points starting at `day`. */
  function FillFrom(dates: seq<DayTotal>, day: int, count: nat): (r: seq<DayTotal>)
    ensures |r| == count
    ensures forall i | 0 <= i < count :: r[i] == FilledDay(dates, day + i)
    decreases count
  {
    if count == 0 then []
    else [FilledDay(dates, day)] + FillFrom(dates, day + 1, count - 1)
  }

  /**
   * The chart series over [startDate, endDate]: one point per day, ascending,
   * with zeros where the input has no entry; an empty input gives an empty series.
   */
  function FillMissingDate(dates: seq<DayTotal>, startDate: int, endDate: int): (r: seq<DayTotal>)
    requires |dates| > 0 ==> startDate <= endDate
    ensures |dates| == 0 ==> r == []
    ensures |dates| > 0 ==> |r| == endDate - startDate + 1
    ensures forall i | 0 <= i < |r| :: r[i].date == startDate + i
    ensures forall i | 0 <= i < |r| ::
              LookupDay(dates, r[i].date).None? ==> r[i].income == 0.0 && r[i].expense == 0.0
    ensures forall i | 0 <= i < |r| :: LookupDay(dates, r[i].date).Some? ==>
              r[i].income == LookupDay(dates, r[i].date).value.income
              && r[i].expense == LookupDay(dates, r[i].date).value.expense
  {
    if |dates| == 0 then [] else FillFrom(dates, startDate, endDate - startDate + 1)
  }

  /** Once there is an entry, the point of each day of the range is that day's filled entry. */
  lemma FillMissingDateAt(dates: seq<DayTotal>, startDate: int, endDate: int, day: int)
    requires |dates| > 0 && startDate <= day <= endDate
    ensures var r := FillMissingDate(dates, startDate, endDate);
            |r| == endDate - startDate + 1 && r[day - startDate] == FilledDay(dates, day)
  {
    var r := FillMissingDate(dates, startDate, endDate);
    assert r == FillFrom(dates, startDate, endDate - startDate + 1);
  }

  /** Every output day lies in the range and consecutive points are one day apart. */
  lemma FillMissingDateGapFree(dates: seq<DayTotal>, startDate: int, endDate: int)
    requires |dates| > 0 ==> startDate <= endDate
    ensures var r := FillMissingDate(dates, startDate, endDate);
            && (forall i | 0 <= i < |r| :: startDate <= r[i].date <= endDate)
            && (forall i | 0 <= i < |r| - 1 :: r[i + 1].date == r[i].date + 1)
  {
  }

  /**
   * An input entry inside the range shows up at its day (when it is the last
   * entry for that day); days of entries outside the range are not in the output.
   */
  lemma {:induction false} FillMissingDateKeepsEntries(dates: seq<DayTotal>, startDate: int, endDate: int, k: nat)
    requires startDate <= endDate
    requires k < |dates| && startDate <= dates[k].date <= endDate
    requires forall j | k < j < |dates| :: dates[j].date != dates[k].date
    ensures var r := FillMissingDate(dates, startDate, endDate);
            r[dates[k].date - startDate] == dates[k]
  {
    var d := dates[k].date;
    var e := LookupDay(dates, d);
    assert e.Some?;
    var i :| 0 <= i < |dates| && dates[i] == e.value && dates[i].date == d
             && forall j | i < j < |dates| :: dates[j].date != d;
    assert i == k;
  }
}

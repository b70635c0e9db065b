/**
 * The dashboard summaries over a date range and an optional account: the
 * income / expense / remaining totals, the spending per category name, and
 * the income and expense per day that the chart fills out to every day of
 * the range.
 */
module Summaries {
  import opened Wrappers
  import opened Tables
  import opened Schema
  import opened Access
  import opened Sorting
  import Utils
  import Periods

  /** The summary options: an inclusive range of day numbers and, optionally, one account. */
  datatype SummaryFilter = SummaryFilter(startDate: int, endDate: int, accountId: Option<Id>)

  /**
   * The shared `transaction_ids` subquery: a transaction of the caller, on
   * the chosen account when one is given, dated from the start date's
   * midnight up to the end date's midnight, as the query compares them.
   */
  predicate InScope(s: Store, user: Id, f: SummaryFilter, t: Row<Transaction>) {
    && (f.accountId.Some? ==> t.val.accountId == f.accountId.value)
    && OwnsAccount(s, user, t.val.accountId)
    && Periods.InPeriodAsWritten(t.val.datetime, f.startDate, f.endDate)
  }

  /** The scope the range evidently means: every second of every day of it. */
  predicate InScopeWholeDays(s: Store, user: Id, f: SummaryFilter, t: Row<Transaction>) {
    && (f.accountId.Some? ==> t.val.accountId == f.accountId.value)
    && OwnsAccount(s, user, t.val.accountId)
    && Periods.InPeriod(t.val.datetime, f.startDate, f.endDate)
  }

  /**
   * The scope as written lies within the whole-day scope and agrees with it
   * on every day but the end day.
   */
  lemma InScopeWithinWholeDays(s: Store, user: Id, f: SummaryFilter, t: Row<Transaction>)
    ensures InScope(s, user, f, t) ==> InScopeWholeDays(s, user, f, t)
    ensures InScopeWholeDays(s, user, f, t) && Periods.DayOf(t.val.datetime) < f.endDate ==> InScope(s, user, f, t)
  {
    var dt := t.val.datetime;
    if InScope(s, user, f, t) {
      Periods.AsWrittenWithinPeriod(dt, f.startDate, f.endDate);
    }
    if InScopeWholeDays(s, user, f, t) && Periods.DayOf(dt) < f.endDate {
      Periods.InPeriodWholeDays(dt, f.startDate, Periods.DayOf(dt));
      Periods.MidnightMonotone(Periods.DayOf(dt) + 1, f.endDate);
    }
  }

  /** The transactions a whole-day summary would add up. */
  function ScopedWholeDays(s: Store, user: Id, f: SummaryFilter): Table<Transaction> {
    Where(s.transactions, (t: Row<Transaction>) => InScopeWholeDays(s, user, f, t))
  }

  function Scope(s: Store, user: Id, f: SummaryFilter): Row<Transaction> -> bool {
    (t: Row<Transaction>) => InScope(s, user, f, t)
  }

  /** The transactions the summaries add up. */
  function Scoped(s: Store, user: Id, f: SummaryFilter): Table<Transaction> {
    Where(s.transactions, Scope(s, user, f))
  }

  lemma ScopedMembers(s: Store, user: Id, f: SummaryFilter)
    ensures forall t :: t in Scoped(s, user, f) <==> t in s.transactions && InScope(s, user, f, t)
  {
    WhereMember(s.transactions, Scope(s, user, f));
  }

  /** `case when amount > 0 then amount else 0 end`. */
  function Income(t: Row<Transaction>): real {
    if t.val.amount > 0.0 then t.val.amount else 0.0
  }

  /** `case when amount < 0 then amount else 0 end`. */
  function Expense(t: Row<Transaction>): real {
    if t.val.amount < 0.0 then t.val.amount else 0.0
  }

  datatype IncomeExpense = IncomeExpense(income: real, expense: real, remaining: real)

  /**
   * `getIncomeExpenseSummary`: a single row, every column coalesced to 0.
   * Income is never negative, expense never positive, and the remaining
   * amount is what income and expense leave together.
   */
  function GetIncomeExpenseSummary(s: Store, session: Session, f: SummaryFilter): (r: Result<seq<IncomeExpense>>)
    ensures session.None? ==> r == Err(Unauthorized)
    ensures session.Some? ==> r.Ok? && |r.value| == 1
    ensures session.Some? ==>
              && r.value[0].income >= 0.0
              && r.value[0].expense <= 0.0
              && r.value[0].remaining == r.value[0].income + r.value[0].expense
    ensures session.Some? ==>
              r.value[0].remaining == Sum(Scoped(s, session.value, f), Amount)
    ensures session.Some? && Scoped(s, session.value, f) == [] ==> r.value[0] == IncomeExpense(0.0, 0.0, 0.0)
  {
    match session
    case None => Err(Unauthorized)
    case Some(u) =>
      var txs := Scoped(s, u, f);
      SumNonNegative(txs, Income);
      SumNonPositive(txs, Expense);
      SumAdd(txs, Income, Expense, Amount);
      Ok([IncomeExpense(Sum(txs, Income), Sum(txs, Expense), Sum(txs, Amount))])
  }

  /** Selects the income transactions. */
  function Earning(t: Row<Transaction>): bool { t.val.amount > 0.0 }

  /** Selects the expense transactions. */
  function Spending(t: Row<Transaction>): bool { t.val.amount < 0.0 }

  /** The summary's income is the sum of the positive amounts, its expense that of the negative ones. */
  lemma IncomeExpenseSplit(s: Store, user: Id, f: SummaryFilter)
    ensures var row := GetIncomeExpenseSummary(s, Some(user), f).value[0];
            && row.income == Sum(Where(Scoped(s, user, f), Earning), Amount)
            && row.expense == Sum(Where(Scoped(s, user, f), Spending), Amount)
  {
    var txs := Scoped(s, user, f);
    SumWhere(txs, Earning, Amount, Income);
    SumWhere(txs, Spending, Amount, Expense);
  }

  // Spending per category

  /**
   * The `transaction_ids` subquery of the category summary: in scope, an
   * expense, and filed under a category that exists.
   */
  predicate IsCategorizedExpense(s: Store, user: Id, f: SummaryFilter, t: Row<Transaction>) {
    && InScope(s, user, f, t)
    && t.val.amount < 0.0
    && t.val.categoryId.Some?
    && t.val.categoryId.value in Ids(s.categories)
  }

  function CategorizedExpense(s: Store, user: Id, f: SummaryFilter): Row<Transaction> -> bool {
    (t: Row<Transaction>) => IsCategorizedExpense(s, user, f, t)
  }

  /** The transactions the category summary adds up. */
  function Expenses(s: Store, user: Id, f: SummaryFilter): Table<Transaction> {
    Where(s.transactions, CategorizedExpense(s, user, f))
  }

  lemma ExpensesMembers(s: Store, user: Id, f: SummaryFilter)
    ensures forall t :: t in Expenses(s, user, f) <==> t in s.transactions && IsCategorizedExpense(s, user, f, t)
  {
    WhereMember(s.transactions, CategorizedExpense(s, user, f));
  }

  /** The name of a transaction's category, which the summary groups by. */
  function CategoryNameOf(s: Store, t: Row<Transaction>): string {
    if t.val.categoryId.Some? then
      match Get(s.categories, t.val.categoryId.value)
      case Some(c) => c.name
      case None => ""
    else ""
  }

  /** Selects the transactions whose category carries the given name. */
  function Named(s: Store): string -> Row<Transaction> -> bool {
    (name: string) => (t: Row<Transaction>) => CategoryNameOf(s, t) == name
  }

  /** `abs(amount)`. */
  function Spent(t: Row<Transaction>): real {
    if t.val.amount < 0.0 then -t.val.amount else t.val.amount
  }

  /** What the expenses under one category name add up to. */
  function NameTotal(s: Store, user: Id, f: SummaryFilter, name: string): real {
    Sum(Where(Expenses(s, user, f), Named(s)(name)), Spent)
  }

  datatype CategoryAmount = CategoryAmount(name: string, amount: real)

  /** The distinct category names of the expenses, larger totals first. */
  function SpendingNames(s: Store, user: Id, f: SummaryFilter): (r: seq<string>)
    ensures NoDup(r)
    ensures forall n | n in r :: exists t | t in Expenses(s, user, f) :: CategoryNameOf(s, t) == n
    ensures forall t | t in Expenses(s, user, f) :: CategoryNameOf(s, t) in r
    ensures forall i, j | 0 <= i < j < |r| :: NameTotal(s, user, f, r[i]) >= NameTotal(s, user, f, r[j])
  {
    var larger := ByMeasureDesc((n: string) => NameTotal(s, user, f, n));
    ByMeasureDescOrders((n: string) => NameTotal(s, user, f, n));
    SortedKeys(Expenses(s, user, f), (t: Row<Transaction>) => CategoryNameOf(s, t), larger)
  }

  /** A name of the summary has spending behind it, so its total is positive. */
  lemma NameTotalPositive(s: Store, user: Id, f: SummaryFilter, name: string)
    ensures name in SpendingNames(s, user, f) ==> NameTotal(s, user, f, name) > 0.0
  {
    if name in SpendingNames(s, user, f) {
      var t :| t in Expenses(s, user, f) && CategoryNameOf(s, t) == name;
      ExpenseNamePositive(s, user, f, t);
    }
  }

  /** The name of an expense has a positive total: that expense is part of it. */
  lemma ExpenseNamePositive(s: Store, user: Id, f: SummaryFilter, t: Row<Transaction>)
    ensures t in Expenses(s, user, f) ==> NameTotal(s, user, f, CategoryNameOf(s, t)) > 0.0
  {
    if t in Expenses(s, user, f) {
      var expenses := Expenses(s, user, f);
      var named := Where(expenses, Named(s)(CategoryNameOf(s, t)));
      WhereMember(expenses, Named(s)(CategoryNameOf(s, t)));
      assert t in named;
      ExpensesSpent(s, user, f);
      WhereWithin(expenses, Named(s)(CategoryNameOf(s, t)));
      SumPositive(named, Spent);
    }
  }

  /** Every expense of the category summary spends a positive amount. */
  lemma ExpensesSpent(s: Store, user: Id, f: SummaryFilter)
    ensures forall t | t in Expenses(s, user, f) :: Spent(t) > 0.0
  {
    forall t | t in Expenses(s, user, f) ensures Spent(t) > 0.0 {
      var i :| 0 <= i < |Expenses(s, user, f)| && Expenses(s, user, f)[i] == t;
    }
  }

  /** The rows of the category summary, one per name of `SpendingNames`, in its order. */
  function SpendingRows(s: Store, user: Id, f: SummaryFilter): (r: seq<CategoryAmount>)
    ensures |r| == |SpendingNames(s, user, f)|
    ensures forall i | 0 <= i < |r| ::
              r[i].name == SpendingNames(s, user, f)[i] && r[i].amount == NameTotal(s, user, f, r[i].name)
  {
    Project(SpendingNames(s, user, f), (n: string) => CategoryAmount(n, NameTotal(s, user, f, n)))
  }

  lemma SpendingRowsPositive(s: Store, user: Id, f: SummaryFilter)
    ensures forall i | 0 <= i < |SpendingRows(s, user, f)| :: SpendingRows(s, user, f)[i].amount > 0.0
  {
    var names := SpendingNames(s, user, f);
    var r := SpendingRows(s, user, f);
    forall i | 0 <= i < |r| ensures r[i].amount > 0.0 {
      NameTotalPositive(s, user, f, names[i]);
    }
  }

  lemma SpendingRowsOrdered(s: Store, user: Id, f: SummaryFilter)
    ensures var r := SpendingRows(s, user, f);
            && (forall i, j | 0 <= i < j < |r| :: r[i].amount >= r[j].amount)
            && (forall i, j | 0 <= i < |r| && 0 <= j < |r| && r[i].name == r[j].name :: i == j)
            && (forall x | x in r :: x.amount == NameTotal(s, user, f, x.name))
  {
    var names := SpendingNames(s, user, f);
    var r := SpendingRows(s, user, f);
    forall i, j | 0 <= i < |r| && 0 <= j < |r| && r[i].name == r[j].name ensures i == j {
      assert names[i] == names[j];
    }
  }

  /** Each row's name has an expense behind it. */
  lemma SpendingRowsNamed(s: Store, user: Id, f: SummaryFilter)
    ensures forall x | x in SpendingRows(s, user, f) ::
              exists t | t in Expenses(s, user, f) :: CategoryNameOf(s, t) == x.name
  {
    var names := SpendingNames(s, user, f);
    var r := SpendingRows(s, user, f);
    var expenses := Expenses(s, user, f);
    forall x | x in r ensures exists t | t in expenses :: CategoryNameOf(s, t) == x.name {
      var i :| 0 <= i < |r| && r[i] == x;
      assert names[i] in names;
      var t :| t in expenses && CategoryNameOf(s, t) == names[i];
      assert CategoryNameOf(s, t) == x.name;
    }
  }

  /** Each expense's category name has a row. */
  lemma SpendingRowsCover(s: Store, user: Id, f: SummaryFilter)
    ensures forall t | t in Expenses(s, user, f) ::
              exists x | x in SpendingRows(s, user, f) :: x.name == CategoryNameOf(s, t)
  {
    var names := SpendingNames(s, user, f);
    var r := SpendingRows(s, user, f);
    forall t | t in Expenses(s, user, f) ensures exists x | x in r :: x.name == CategoryNameOf(s, t) {
      var i :| 0 <= i < |names| && names[i] == CategoryNameOf(s, t);
      assert r[i] in r;
    }
  }

  /**
   * `getCategorySummary`: one row per category name with the absolute sum of
   * its expenses, largest first. Categories of the same name, of the caller
   * or of anyone else, share a row.
   */
  function GetCategorySummary(s: Store, session: Session, f: SummaryFilter): (r: Result<seq<CategoryAmount>>)
    ensures session.None? ==> r == Err(Unauthorized)
    ensures session.Some? ==> r.Ok?
    ensures session.Some? ==> forall i | 0 <= i < |r.value| :: r.value[i].amount > 0.0
    ensures session.Some? ==> forall i, j | 0 <= i < j < |r.value| :: r.value[i].amount >= r.value[j].amount
    ensures session.Some? ==>
              forall i, j | 0 <= i < |r.value| && 0 <= j < |r.value| && r.value[i].name == r.value[j].name :: i == j
    ensures session.Some? ==>
              forall x | x in r.value ::
                && x.amount == NameTotal(s, session.value, f, x.name)
                && exists t | t in Expenses(s, session.value, f) :: CategoryNameOf(s, t) == x.name
    ensures session.Some? ==>
              forall t | t in Expenses(s, session.value, f) :: exists x | x in r.value :: x.name == CategoryNameOf(s, t)
  {
    match session
    case None => Err(Unauthorized)
    case Some(u) =>
      var r := SpendingRows(s, u, f);
      SpendingRowsPositive(s, u, f);
      SpendingRowsOrdered(s, u, f);
      SpendingRowsNamed(s, u, f);
      SpendingRowsCover(s, u, f);
      Ok(r)
  }

  /** Every expense of the category summary's scope is counted under exactly one name. */
  lemma CategorySummaryAddsUp(s: Store, user: Id, f: SummaryFilter)
    ensures Sum(GetCategorySummary(s, Some(user), f).value, (x: CategoryAmount) => x.amount)
            == Sum(Expenses(s, user, f), Spent)
  {
    var expenses := Expenses(s, user, f);
    var names := SpendingNames(s, user, f);
    var total := (n: string) => NameTotal(s, user, f, n);
    var nameOf := (t: Row<Transaction>) => CategoryNameOf(s, t);
    var inNames := (t: Row<Transaction>) => CategoryNameOf(s, t) in names;
    SumProject(names, (n: string) => CategoryAmount(n, NameTotal(s, user, f, n)), (x: CategoryAmount) => x.amount, total);
    assert forall t | t in expenses :: inNames(t);
    SumByKeys(names, expenses, nameOf, Named(s), inNames, Spent, total);
    WhereAll(expenses, inNames);
  }

  // Income and expense per day

  /** Selects the transactions dated on a day. */
  function OnDay(day: int): Row<Transaction> -> bool {
    (t: Row<Transaction>) => Periods.DayOf(t.val.datetime) == day
  }

  function DayIncome(s: Store, user: Id, f: SummaryFilter, day: int): real {
    Sum(Where(Scoped(s, user, f), OnDay(day)), Income)
  }

  function DayExpense(s: Store, user: Id, f: SummaryFilter, day: int): real {
    Sum(Where(Scoped(s, user, f), OnDay(day)), Expense)
  }

  /** The days with at least one transaction in scope, ascending (`group by date order by date`). */
  function ActiveDays(s: Store, user: Id, f: SummaryFilter): (r: seq<int>)
    ensures NoDup(r)
    ensures forall i, j | 0 <= i < j < |r| :: r[i] < r[j]
    ensures forall d | d in r :: exists t | t in Scoped(s, user, f) :: Periods.DayOf(t.val.datetime) == d
    ensures forall t | t in Scoped(s, user, f) :: Periods.DayOf(t.val.datetime) in r
  {
    AtMostOrders();
    var r := SortedKeys(Scoped(s, user, f), (t: Row<Transaction>) => Periods.DayOf(t.val.datetime), AtMost);
    AscendingStrictly(r);
    r
  }

  /** A day's income is never negative and its expense never positive. */
  lemma DaySigns(s: Store, user: Id, f: SummaryFilter, day: int)
    ensures DayIncome(s, user, f, day) >= 0.0 && DayExpense(s, user, f, day) <= 0.0
  {
    SumNonNegative(Where(Scoped(s, user, f), OnDay(day)), Income);
    SumNonPositive(Where(Scoped(s, user, f), OnDay(day)), Expense);
  }

  /** An active day lies in the range and has a transaction in scope. */
  lemma ActiveDayInRange(s: Store, user: Id, f: SummaryFilter, day: int)
    requires day in ActiveDays(s, user, f)
    ensures f.startDate <= day <= f.endDate
    ensures exists t | t in s.transactions :: InScope(s, user, f, t) && Periods.DayOf(t.val.datetime) == day
  {
    var t :| t in Scoped(s, user, f) && Periods.DayOf(t.val.datetime) == day;
    assert InScope(s, user, f, t);
    Periods.AsWrittenWithinPeriod(t.val.datetime, f.startDate, f.endDate);
  }

  /** The rows of the by-date summary, one per active day, in its order. */
  function DayRows(s: Store, user: Id, f: SummaryFilter): (r: seq<Utils.DayTotal>)
    ensures |r| == |ActiveDays(s, user, f)|
    ensures forall i | 0 <= i < |r| ::
              var d := ActiveDays(s, user, f)[i];
              r[i] == Utils.DayTotal(d, DayIncome(s, user, f, d), DayExpense(s, user, f, d))
  {
    Project(ActiveDays(s, user, f), (d: int) => Utils.DayTotal(d, DayIncome(s, user, f, d), DayExpense(s, user, f, d)))
  }

  /** Each row is an active day of the range with that day's sums. */
  lemma DayRowsSound(s: Store, user: Id, f: SummaryFilter)
    ensures forall x | x in DayRows(s, user, f) ::
              && f.startDate <= x.date <= f.endDate
              && x.income == DayIncome(s, user, f, x.date) && x.income >= 0.0
              && x.expense == DayExpense(s, user, f, x.date) && x.expense <= 0.0
              && exists t | t in s.transactions :: InScope(s, user, f, t) && Periods.DayOf(t.val.datetime) == x.date
  {
    var days := ActiveDays(s, user, f);
    var r := DayRows(s, user, f);
    forall x | x in r
      ensures && f.startDate <= x.date <= f.endDate
              && x.income == DayIncome(s, user, f, x.date) && x.income >= 0.0
              && x.expense == DayExpense(s, user, f, x.date) && x.expense <= 0.0
              && exists t | t in s.transactions :: InScope(s, user, f, t) && Periods.DayOf(t.val.datetime) == x.date
    {
      var i :| 0 <= i < |r| && r[i] == x;
      assert days[i] in days;
      DaySigns(s, user, f, days[i]);
      ActiveDayInRange(s, user, f, days[i]);
    }
  }

  /** Each transaction in scope has the row of its day. */
  lemma DayRowsCover(s: Store, user: Id, f: SummaryFilter)
    ensures forall t | t in s.transactions && InScope(s, user, f, t) ::
              exists x | x in DayRows(s, user, f) :: x.date == Periods.DayOf(t.val.datetime)
  {
    var days := ActiveDays(s, user, f);
    var r := DayRows(s, user, f);
    ScopedMembers(s, user, f);
    forall t | t in s.transactions && InScope(s, user, f, t)
      ensures exists x | x in r :: x.date == Periods.DayOf(t.val.datetime)
    {
      var i :| 0 <= i < |days| && days[i] == Periods.DayOf(t.val.datetime);
      assert r[i] in r;
    }
  }

  /**
   * `getIncomeExpenseSummaryByDate`: the income and expense of each day that
   * has a transaction in scope, one row per day, in ascending date order.
   */
  function GetIncomeExpenseSummaryByDate(s: Store, session: Session, f: SummaryFilter)
    : (r: Result<seq<Utils.DayTotal>>)
    ensures session.None? ==> r == Err(Unauthorized)
    ensures session.Some? ==> r.Ok?
    ensures session.Some? ==> forall i, j | 0 <= i < j < |r.value| :: r.value[i].date < r.value[j].date
    ensures session.Some? ==>
              forall x | x in r.value ::
                && f.startDate <= x.date <= f.endDate
                && x.income == DayIncome(s, session.value, f, x.date) && x.income >= 0.0
                && x.expense == DayExpense(s, session.value, f, x.date) && x.expense <= 0.0
                && exists t | t in s.transactions ::
                     InScope(s, session.value, f, t) && Periods.DayOf(t.val.datetime) == x.date
    ensures session.Some? ==>
              forall t | t in s.transactions && InScope(s, session.value, f, t) ::
                exists x | x in r.value :: x.date == Periods.DayOf(t.val.datetime)
  {
    match session
    case None => Err(Unauthorized)
    case Some(u) =>
      var r := DayRows(s, u, f);
      DayRowsSound(s, u, f);
      DayRowsCover(s, u, f);
      Ok(r)
  }

  /** The daily rows add up to the period's income and expense. */
  lemma DailyTotalsAddUp(s: Store, user: Id, f: SummaryFilter)
    ensures var days := GetIncomeExpenseSummaryByDate(s, Some(user), f).value;
            var total := GetIncomeExpenseSummary(s, Some(user), f).value[0];
            && Sum(days, (x: Utils.DayTotal) => x.income) == total.income
            && Sum(days, (x: Utils.DayTotal) => x.expense) == total.expense
  {
    var txs := Scoped(s, user, f);
    var days := ActiveDays(s, user, f);
    var dayOf := (t: Row<Transaction>) => Periods.DayOf(t.val.datetime);
    var inDays := (t: Row<Transaction>) => Periods.DayOf(t.val.datetime) in days;
    var row := (d: int) => Utils.DayTotal(d, DayIncome(s, user, f, d), DayExpense(s, user, f, d));
    var income := (d: int) => DayIncome(s, user, f, d);
    var expense := (d: int) => DayExpense(s, user, f, d);
    SumProject(days, row, (x: Utils.DayTotal) => x.income, income);
    SumProject(days, row, (x: Utils.DayTotal) => x.expense, expense);
    SumByKeys(days, txs, dayOf, OnDay, inDays, Income, income);
    SumByKeys(days, txs, dayOf, OnDay, inDays, Expense, expense);
    WhereAll(txs, inDays);
  }

  /**
   * The dashboard chart: once a range has any transaction in scope, the
   * filled series shows every day of the range with that day's income and
   * expense, 0 on the days without transactions; without any, the chart is
   * empty.
   */
  lemma ChartShowsEveryDay(s: Store, user: Id, f: SummaryFilter, day: int)
    requires f.startDate <= day <= f.endDate
    ensures var chart := Utils.FillMissingDate(GetIncomeExpenseSummaryByDate(s, Some(user), f).value, f.startDate, f.endDate);
            && (Scoped(s, user, f) == [] ==> chart == [])
            && (Scoped(s, user, f) != [] ==>
                  && |chart| == f.endDate - f.startDate + 1
                  && chart[day - f.startDate] == Utils.DayTotal(day, DayIncome(s, user, f, day), DayExpense(s, user, f, day)))
  {
    assert GetIncomeExpenseSummaryByDate(s, Some(user), f).value == DayRows(s, user, f);
    if Scoped(s, user, f) == [] {
      NoActiveDays(s, user, f);
    } else {
      ChartPoint(s, user, f, day);
    }
  }

  lemma NoActiveDays(s: Store, user: Id, f: SummaryFilter)
    requires Scoped(s, user, f) == []
    ensures DayRows(s, user, f) == []
  {
  }

  lemma ChartPoint(s: Store, user: Id, f: SummaryFilter, day: int)
    requires f.startDate <= day <= f.endDate
    requires Scoped(s, user, f) != []
    ensures var chart := Utils.FillMissingDate(DayRows(s, user, f), f.startDate, f.endDate);
            && |chart| == f.endDate - f.startDate + 1
            && chart[day - f.startDate] == Utils.DayTotal(day, DayIncome(s, user, f, day), DayExpense(s, user, f, day))
  {
    SomeActiveDay(s, user, f);
    Utils.FillMissingDateAt(DayRows(s, user, f), f.startDate, f.endDate, day);
    DayPoint(s, user, f, day);
  }

  lemma SomeActiveDay(s: Store, user: Id, f: SummaryFilter)
    requires Scoped(s, user, f) != []
    ensures |DayRows(s, user, f)| > 0
  {
    var txs := Scoped(s, user, f);
    assert txs[0] in txs;
  }

  /**
   * The chart point of a day is that day's income and expense: a day with a
   * row of its own shows that row, and a day without one has no transaction
   * in scope, so it adds up to 0.
   */
  lemma DayPoint(s: Store, user: Id, f: SummaryFilter, day: int)
    ensures Utils.FilledDay(DayRows(s, user, f), day)
            == Utils.DayTotal(day, DayIncome(s, user, f, day), DayExpense(s, user, f, day))
  {
    var rows := DayRows(s, user, f);
    if Utils.LookupDay(rows, day).Some? {
      var i :| 0 <= i < |rows| && rows[i] == Utils.LookupDay(rows, day).value && rows[i].date == day;
    } else {
      var txs := Scoped(s, user, f);
      var days := ActiveDays(s, user, f);
      forall t | t in txs ensures !OnDay(day)(t) {
        var i :| 0 <= i < |days| && days[i] == Periods.DayOf(t.val.datetime);
        assert rows[i].date == days[i];
      }
      WhereEmpty(txs, OnDay(day));
    }
  }

  /** A single transaction of 5.0 at noon on day 20000, on user 1's account 2. */
  function NoonLunch(): Row<Transaction> {
    Row(3, Transaction(Periods.Midnight(20000) + Periods.SecondsPerDay / 2, "Lunch", 5.0, 2, None, None, None, 0))
  }

  function NoonStore(): Store {
    Store([Row(1, User(None, None))], [Row(2, Account("Cash", 0.0, 1, 0))], [], [NoonLunch()], [], [], [], [])
  }

  /** The range covering day 20000 only. */
  function OneDay(): SummaryFilter {
    SummaryFilter(20000, 20000, None)
  }

  lemma NoonStoreKeys()
    ensures PrimaryKeys(NoonStore()) && Lengths(NoonStore())
  {
  }

  lemma NoonStoreRefs()
    ensures UserRefs(NoonStore()) && TransactionRefs(NoonStore())
    ensures ItemRefs(NoonStore()) && BudgetCategoryRefs(NoonStore())
  {
    var s := NoonStore();
    assert s.users[0] in s.users;
    assert s.accounts[0] in s.accounts;
  }

  /** The fixture store is consistent. */
  lemma NoonStoreValid()
    ensures Valid(NoonStore())
  {
    NoonStoreKeys();
    NoonStoreRefs();
  }

  /** The noon transaction falls on the range's end day. */
  lemma NoonOnEndDay()
    ensures Periods.DayOf(NoonLunch().val.datetime) == OneDay().endDate
  {
    assert NoonLunch().val.datetime == 20000 * 86400 + 43200;
  }

  /**
   * As written, the one-day summary reports nothing for the noon transaction
   * and the chart stays empty.
   */
  lemma EndDayDroppedFromSummary()
    ensures GetIncomeExpenseSummary(NoonStore(), Some(1), OneDay()).value == [IncomeExpense(0.0, 0.0, 0.0)]
    ensures Utils.FillMissingDate(GetIncomeExpenseSummaryByDate(NoonStore(), Some(1), OneDay()).value,
                                  OneDay().startDate, OneDay().endDate) == []
  {
    var s, f := NoonStore(), OneDay();
    assert NoonLunch().val.datetime == 20000 * 86400 + 43200;
    assert !InScope(s, 1, f, NoonLunch());
    assert Scoped(s, 1, f) == [] by {
      assert s.transactions[1..] == [];
    }
    NoActiveDays(s, 1, f);
  }

  /** The whole-day scope keeps the noon transaction and its 5.0. */
  lemma EndDayKeptByWholeDays()
    ensures ScopedWholeDays(NoonStore(), 1, OneDay()) == [NoonLunch()]
    ensures Sum(ScopedWholeDays(NoonStore(), 1, OneDay()), Amount) == 5.0
  {
    var s, f := NoonStore(), OneDay();
    assert OwnsAccount(s, 1, NoonLunch().val.accountId) by {
      assert s.accounts[0] in s.accounts;
    }
    assert InScopeWholeDays(s, 1, f, NoonLunch());
    assert s.transactions[1..] == [];
    assert [NoonLunch()][1..] == [];
  }
}

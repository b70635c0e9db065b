/**
 * The transaction server functions: the three transaction lists, fetching
 * one transaction and its budget or shopping links, creating (directly or
 * from a shopping plan), updating, linking and deleting. Ownership of a
 * transaction is ownership of its account.
 */
module Transactions {
  import opened Wrappers
  import opened Tables
  import opened Schema
  import opened Access
  import opened Sorting
  import Utils
  import ShoppingPlans
  import ShoppingItems

  /** The validated transaction form; the amount is in units. */
  datatype TransactionForm = TransactionForm(
    datetime: int, description: string, amount: real, accountId: Id, categoryId: Option<Id>)

  /** The form connecting a transaction to a budget category (the plan is only used to pick it). */
  datatype ConnectBudgetForm = ConnectBudgetForm(planId: Id, categoryId: Id)

  /** The form linking a transaction and a shopping plan; `planId` holds whichever id the form picks. */
  datatype LinkShoppingForm = LinkShoppingForm(planId: Id)

  /** A row of a transaction list: the transaction with the names of what it refers to. */
  datatype TransactionView = TransactionView(
    id: Id,
    datetime: int,
    description: string,
    amount: real,
    shoppingPlanId: Option<Id>,
    budgetCategoryId: Option<Id>,
    account: string,
    category: Option<string>,
    budgetCategory: Option<string>,
    shoppingPlanAmount: real)

  /** The account's name; the lists join accounts on an inner join, so the account exists. */
  function AccountName(s: Store, account: Id): string {
    match Get(s.accounts, account)
    case Some(a) => a.name
    case None => ""
  }

  /** A left-joined category's name, NULL when there is none. */
  function CategoryName(s: Store, category: Option<Id>): (r: Option<string>)
    ensures r.Some? <==> category.Some? && category.value in Ids(s.categories)
  {
    if category.Some? then
      match Get(s.categories, category.value)
      case Some(c) => Some(c.name)
      case None => None
    else None
  }

  /** A left-joined budget category's name, NULL when there is none. */
  function BudgetCategoryName(s: Store, category: Option<Id>): (r: Option<string>)
    ensures r.Some? <==> category.Some? && category.value in Ids(s.budgetCategories)
  {
    if category.Some? then
      match Get(s.budgetCategories, category.value)
      case Some(c) => Some(c.name)
      case None => None
    else None
  }

  /**
   * The item total of the linked shopping plan. The grouped totals only
   * cover the caller's plans, and a missing group is coalesced to 0.
   */
  function ShoppingPlanAmount(s: Store, user: Id, plan: Option<Id>): (r: real)
    ensures plan.None? ==> r == 0.0
    ensures plan.Some? && !OwnsShoppingPlan(s, user, plan.value) ==> r == 0.0
    ensures plan.Some? && OwnsShoppingPlan(s, user, plan.value) ==>
              r == Sum(ShoppingPlans.ItemsOf(s, plan.value), ShoppingPlans.ItemTotal)
  {
    if plan.Some? && OwnsShoppingPlan(s, user, plan.value) then
      Sum(ShoppingPlans.ItemsOf(s, plan.value), ShoppingPlans.ItemTotal)
    else 0.0
  }

  /**
   * The shopping amount a listing shows for a plan is what the items
   * endpoint adds up for that plan and caller, 0 when the plan is not the
   * caller's; for a plan of the caller it is also the total on every row of
   * the plan's summary.
   */
  lemma ShoppingPlanAmountMatchesItems(s: Store, user: Id, plan: Id)
    ensures ShoppingPlanAmount(s, user, Some(plan)) ==
            Sum(ShoppingItems.GetShoppingPlanItems(s, Some(user), plan).value, ShoppingPlans.ItemTotal)
    ensures KeysUnique(s.shoppingPlans) && OwnsShoppingPlan(s, user, plan) ==>
              forall x | x in ShoppingPlans.GetShoppingPlanSummary(s, Some(user), plan).value ::
                x.total == ShoppingPlanAmount(s, user, Some(plan))
  {
  }

  function View(s: Store, user: Id, t: Row<Transaction>): TransactionView {
    TransactionView(
      t.id, t.val.datetime, t.val.description, t.val.amount, t.val.shoppingPlanId, t.val.budgetCategoryId,
      AccountName(s, t.val.accountId), CategoryName(s, t.val.categoryId),
      BudgetCategoryName(s, t.val.budgetCategoryId), ShoppingPlanAmount(s, user, t.val.shoppingPlanId))
  }

  /** `order by datetime desc`. */
  function Latest(a: TransactionView, b: TransactionView): bool {
    a.datetime >= b.datetime
  }

  lemma LatestOrders()
    ensures Total(Latest) && Transitive(Latest)
  {
  }

  /** The views of the transactions satisfying `keep`, newest first. */
  function Listing(s: Store, user: Id, keep: Row<Transaction> -> bool): (r: seq<TransactionView>)
    ensures |r| == |Where(s.transactions, keep)|
    ensures forall i, j | 0 <= i < j < |r| :: r[i].datetime >= r[j].datetime
    ensures forall x | x in r :: exists t | t in s.transactions :: keep(t) && x == View(s, user, t)
    ensures forall t | t in s.transactions && keep(t) :: View(s, user, t) in r
  {
    var view := (t: Row<Transaction>) => View(s, user, t);
    var views := Project(Where(s.transactions, keep), view);
    var r := SortBy(views, Latest);
    LatestOrders();
    SortBySorted(views, Latest);
    SortByMembers(views, Latest);
    ProjectWhereCovers(s.transactions, keep, view);
    r
  }

  /** Selects the transactions on the caller's accounts. */
  function OnOwnedAccount(s: Store, user: Id): Row<Transaction> -> bool {
    (t: Row<Transaction>) => OwnsAccount(s, user, t.val.accountId)
  }

  /** Selects the transactions on one account, when the caller owns it. */
  function OnOwnedAccountOf(s: Store, user: Id, account: Id): Row<Transaction> -> bool {
    (t: Row<Transaction>) => OwnsAccount(s, user, t.val.accountId) && t.val.accountId == account
  }

  /** `getTransactions`: every transaction on the caller's accounts, newest first. */
  function GetTransactions(s: Store, session: Session): (r: Result<seq<TransactionView>>)
    ensures session.None? ==> r == Err(Unauthorized)
    ensures session.Some? ==> r.Ok?
    ensures session.Some? ==> |r.value| == |Where(s.transactions, OnOwnedAccount(s, session.value))|
    ensures session.Some? ==> forall i, j | 0 <= i < j < |r.value| :: r.value[i].datetime >= r.value[j].datetime
    ensures session.Some? ==>
              forall x | x in r.value :: exists t | t in s.transactions ::
                OwnsAccount(s, session.value, t.val.accountId) && x == View(s, session.value, t)
    ensures session.Some? ==>
              forall t | t in s.transactions && OwnsAccount(s, session.value, t.val.accountId) ::
                View(s, session.value, t) in r.value
  {
    match session
    case None => Err(Unauthorized)
    case Some(u) => Ok(Listing(s, u, OnOwnedAccount(s, u)))
  }

  /** `getAccountTransactions`: the transactions of one account of the caller, newest first. */
  function GetAccountTransactions(s: Store, session: Session, account: Id): (r: Result<seq<TransactionView>>)
    ensures session.None? ==> r == Err(Unauthorized)
    ensures session.Some? ==> r.Ok?
    ensures session.Some? ==> forall i, j | 0 <= i < j < |r.value| :: r.value[i].datetime >= r.value[j].datetime
    ensures session.Some? && !OwnsAccount(s, session.value, account) ==> r.value == []
    ensures session.Some? ==> |r.value| == |Where(s.transactions, OnOwnedAccountOf(s, session.value, account))|
    ensures session.Some? ==>
              forall x | x in r.value :: exists t | t in s.transactions ::
                t.val.accountId == account && x == View(s, session.value, t)
    ensures session.Some? && OwnsAccount(s, session.value, account) ==>
              forall t | t in s.transactions && t.val.accountId == account :: View(s, session.value, t) in r.value
  {
    match session
    case None => Err(Unauthorized)
    case Some(u) =>
      var keep := OnOwnedAccountOf(s, u, account);
      if !OwnsAccount(s, u, account) then
        WhereEmpty(s.transactions, keep);
        Ok(Listing(s, u, keep))
      else
        Ok(Listing(s, u, keep))
  }

  /** The budget categories of the caller's budget plan, as the subquery selects them. */
  function PlanCategoryIds(s: Store, user: Id, plan: Id): set<Id> {
    if OwnsBudgetPlan(s, user, plan) then CategoriesOfBudgetPlans(s, {plan}) else {}
  }

  /** Selects the transactions whose budget category is one of `ids`. */
  function BudgetedIn(s: Store, ids: set<Id>): Row<Transaction> -> bool {
    (t: Row<Transaction>) =>
      t.val.budgetCategoryId.Some? && t.val.budgetCategoryId.value in ids && t.val.accountId in Ids(s.accounts)
  }

  /**
   * `getBudgetPlanTransactions`: the transactions booked against a category
   * of the caller's budget plan, newest first. Only the plan's owner is
   * checked, not the transaction's account: a transaction on another user's
   * account that is connected to the plan is listed too.
   */
  function GetBudgetPlanTransactions(s: Store, session: Session, plan: Id): (r: Result<seq<TransactionView>>)
    ensures session.None? ==> r == Err(Unauthorized)
    ensures session.Some? ==> r.Ok?
    ensures session.Some? ==> forall i, j | 0 <= i < j < |r.value| :: r.value[i].datetime >= r.value[j].datetime
    ensures session.Some? && !OwnsBudgetPlan(s, session.value, plan) ==> r.value == []
    ensures session.Some? ==>
              |r.value| == |Where(s.transactions, BudgetedIn(s, PlanCategoryIds(s, session.value, plan)))|
    ensures session.Some? ==>
              forall x | x in r.value :: exists t | t in s.transactions ::
                && t.val.budgetCategoryId.Some?
                && t.val.budgetCategoryId.value in CategoriesOfBudgetPlans(s, {plan})
                && x == View(s, session.value, t)
    ensures session.Some? && OwnsBudgetPlan(s, session.value, plan) ==>
              forall t | t in s.transactions && t.val.accountId in Ids(s.accounts)
                         && t.val.budgetCategoryId.Some?
                         && t.val.budgetCategoryId.value in CategoriesOfBudgetPlans(s, {plan}) ::
                View(s, session.value, t) in r.value
  {
    match session
    case None => Err(Unauthorized)
    case Some(u) =>
      var keep := BudgetedIn(s, PlanCategoryIds(s, u, plan));
      if !OwnsBudgetPlan(s, u, plan) then
        WhereEmpty(s.transactions, keep);
        Ok(Listing(s, u, keep))
      else
        Ok(Listing(s, u, keep))
  }

  /** `getTransaction`: the caller's transaction with the given id, at most one row. */
  function GetTransaction(s: Store, session: Session, id: Id): (r: Result<Table<Transaction>>)
    ensures session.None? ==> r == Err(Unauthorized)
    ensures session.Some? ==> r.Ok? && |r.value| <= 1
    ensures session.Some? ==>
              forall x | x in r.value :: x in s.transactions && x.id == id && OwnsAccount(s, session.value, x.val.accountId)
    ensures session.Some? && KeysUnique(s.transactions) ==>
              (r.value != [] <==> OwnsTransaction(s, session.value, id))
  {
    match session
    case None => Err(Unauthorized)
    case Some(u) => Ok(SelectById(s.transactions, id, (t: Transaction) => OwnsAccount(s, u, t.accountId)))
  }

  /** A transaction's budget connection: the plan and the category. */
  datatype TransactionBudget = TransactionBudget(planId: Id, categoryId: Id)

  /** The budget connection of a transaction, through two inner joins. */
  function BudgetLink(s: Store, t: Row<Transaction>): (r: seq<TransactionBudget>)
    ensures |r| <= 1
  {
    if t.val.budgetCategoryId.Some? then
      match Get(s.budgetCategories, t.val.budgetCategoryId.value)
      case Some(c) =>
        if c.budgetPlanId in Ids(s.budgetPlans) then [TransactionBudget(c.budgetPlanId, t.val.budgetCategoryId.value)]
        else []
      case None => []
    else []
  }

  /**
   * `getTransactionBudget`: the budget plan and category a transaction is
   * connected to. Nothing restricts it to the caller's transactions.
   */
  function GetTransactionBudget(s: Store, session: Session, id: Id): (r: Result<seq<TransactionBudget>>)
    ensures session.None? ==> r == Err(Unauthorized)
    ensures session.Some? ==> r.Ok?
    ensures session.Some? ==>
              forall x | x in r.value :: exists t | t in s.transactions ::
                && t.id == id && t.val.budgetCategoryId == Some(x.categoryId)
                && Get(s.budgetCategories, x.categoryId).Some?
                && Get(s.budgetCategories, x.categoryId).value.budgetPlanId == x.planId
                && x.planId in Ids(s.budgetPlans)
    ensures session.Some? && KeysUnique(s.transactions) ==>
              && |r.value| <= 1
              && (r.value != [] <==>
                    && id in Ids(s.transactions)
                    && BudgetLink(s, Row(id, Get(s.transactions, id).value)) != [])
  {
    match session
    case None => Err(Unauthorized)
    case Some(_) =>
      var rows := SelectById(s.transactions, id, (t: Transaction) => true);
      var r := FlatMap(rows, (t: Row<Transaction>) => BudgetLink(s, t));
      FlatMapCovers(rows, (t: Row<Transaction>) => BudgetLink(s, t));
      assert |rows| == 1 ==> rows[0] in rows;
      Ok(r)
  }

  /**
   * `getTransactionShopping`: the account of every transaction linked to a
   * shopping plan. Nothing restricts it to the caller's plans.
   */
  function GetTransactionShopping(s: Store, session: Session, plan: Id): (r: Result<seq<Id>>)
    ensures session.None? ==> r == Err(Unauthorized)
    ensures session.Some? ==> r.Ok? && |r.value| == |ShoppingPlans.LinkedTransactions(s, plan)|
    ensures session.Some? ==>
              forall i | 0 <= i < |r.value| :: exists t | t in s.transactions ::
                t.val.shoppingPlanId == Some(plan) && t.val.accountId == r.value[i]
    ensures session.Some? ==>
              forall t | t in s.transactions && t.val.shoppingPlanId == Some(plan) :: t.val.accountId in r.value
  {
    match session
    case None => Err(Unauthorized)
    case Some(_) =>
      var linked := ShoppingPlans.LinkedTransactions(s, plan);
      var r := Project(linked, (t: Row<Transaction>) => t.val.accountId);
      WhereMember(s.transactions, ShoppingPlans.LinkedTo(plan));
      assert forall t | t in linked :: t.val.accountId in r by {
        forall t | t in linked ensures t.val.accountId in r {
          var i :| 0 <= i < |linked| && linked[i] == t;
          assert r[i] == t.val.accountId;
        }
      }
      Ok(r)
  }

  // Writes

  /**
   * Under a valid store, replacing a transaction's value is accepted exactly
   * when its references resolve and its description fits its column.
   */
  lemma SetTransactionValid(s: Store, id: Id, v: Transaction)
    requires Valid(s)
    ensures Valid(s.(transactions := SetVal(s.transactions, id, v))) <==>
            id !in Ids(s.transactions) ||
            (&& v.accountId in Ids(s.accounts)
             && RefIn(v.categoryId, Ids(s.categories))
             && RefIn(v.shoppingPlanId, Ids(s.shoppingPlans))
             && RefIn(v.budgetCategoryId, Ids(s.budgetCategories))
             && Fits(v.description))
  {
    var next := s.(transactions := SetVal(s.transactions, id, v));
    if id in Ids(s.transactions) {
      var i :| 0 <= i < |s.transactions| && s.transactions[i].id == id;
      assert next.transactions[i] == Row(id, v);
    } else {
      assert forall x | x in next.transactions :: x in s.transactions;
    }
  }

  /**
   * `createTransaction`: inserts a transaction with the amount converted to
   * miliunits. The account is taken from the form as is: it need not be the
   * caller's.
   */
  function CreateTransaction(s: Store, session: Session, id: Id, now: int, form: TransactionForm)
    : (o: Outcome<Row<Transaction>>)
    ensures session.None? ==> o == Outcome(Err(Unauthorized), s)
    ensures !o.result.Ok? ==> o.store == s
    ensures o.result.Ok? ==>
              && session.Some?
              && |o.result.value| == 1
              && o.result.value[0] == Row(id, Transaction(form.datetime, form.description,
                   Utils.ConvertToMiliunits(form.amount), form.accountId, form.categoryId, None, None, now))
              && o.store == s.(transactions := s.transactions + o.result.value)
              && Valid(o.store)
  {
    match session
    case None => Outcome(Err(Unauthorized), s)
    case Some(_) =>
      var row := Row(id, Transaction(form.datetime, form.description,
        Utils.ConvertToMiliunits(form.amount), form.accountId, form.categoryId, None, None, now));
      Commit(s, s.(transactions := s.transactions + [row]), [row])
  }

  /**
   * The insert is accepted exactly when the id is new, the account and
   * category exist, whoever owns them, and the description fits its
   * `varchar(256)` column.
   */
  lemma CreateTransactionAccepted(s: Store, user: Id, id: Id, now: int, form: TransactionForm)
    requires Valid(s)
    ensures CreateTransaction(s, Some(user), id, now, form).result.Ok? <==>
            && id !in Ids(s.transactions)
            && form.accountId in Ids(s.accounts)
            && RefIn(form.categoryId, Ids(s.categories))
            && Fits(form.description)
  {
    var row := Row(id, Transaction(form.datetime, form.description,
      Utils.ConvertToMiliunits(form.amount), form.accountId, form.categoryId, None, None, now));
    var next := s.(transactions := s.transactions + [row]);
    AppendRow(s.transactions, row.id, row.val);
    assert row in next.transactions;
    if && id !in Ids(s.transactions) && form.accountId in Ids(s.accounts)
       && RefIn(form.categoryId, Ids(s.categories)) && Fits(form.description)
    {
      forall t | t in next.transactions
        ensures && t.val.accountId in Ids(next.accounts)
                && RefIn(t.val.categoryId, Ids(next.categories))
                && RefIn(t.val.shoppingPlanId, Ids(next.shoppingPlans))
                && RefIn(t.val.budgetCategoryId, Ids(next.budgetCategories))
                && Fits(t.val.description)
      {
        if t != row {
          assert t in s.transactions;
        }
      }
      assert Valid(next);
    }
  }

  /**
   * `createTransactionShopping`: records a shopping plan of the caller as a
   * transaction dated and titled like the plan, linked to it, with the
   * default amount 0. The account column is filled from the form's
   * `planId`. Without a summary row for the plan the request fails.
   */
  function CreateTransactionShopping(s: Store, session: Session, plan: Id, id: Id, now: int, form: LinkShoppingForm)
    : (o: Outcome<Row<Transaction>>)
    ensures session.None? ==> o == Outcome(Err(Unauthorized), s)
    ensures !o.result.Ok? ==> o.store == s
    ensures session.Some? && KeysUnique(s.shoppingPlans) && !OwnsShoppingPlan(s, session.value, plan) ==>
              o == Outcome(Err(RequestFailed), s)
    ensures o.result.Ok? && KeysUnique(s.shoppingPlans) ==>
              && session.Some?
              && OwnsShoppingPlan(s, session.value, plan)
              && |o.result.value| == 1
              && o.result.value[0] == Row(id, Transaction(
                   Get(s.shoppingPlans, plan).value.datetime, Get(s.shoppingPlans, plan).value.title,
                   0.0, form.planId, None, Some(plan), None, now))
              && o.store == s.(transactions := s.transactions + o.result.value)
              && Valid(o.store)
  {
    match session
    case None => Outcome(Err(Unauthorized), s)
    case Some(u) =>
      var summary := ShoppingPlans.GetShoppingPlanSummary(s, session, plan).value;
      if |summary| == 0 then Outcome(Err(RequestFailed), s)
      else
        assert summary[0] in summary;
        var row := Row(id, DefaultTransaction(summary[0].datetime, form.planId, now).(
          description := summary[0].title, shoppingPlanId := Some(plan)));
        Commit(s, s.(transactions := s.transactions + [row]), [row])
  }

  /** `updateTransaction`: overwrites the caller's transaction with the form, including its account. */
  function UpdateTransaction(s: Store, session: Session, id: Id, form: TransactionForm): (o: Outcome<Row<Transaction>>)
    ensures session.None? ==> o == Outcome(Err(Unauthorized), s)
    ensures session.Some? && !OwnsTransaction(s, session.value, id) ==> o == Outcome(Ok([]), s)
    ensures !o.result.Ok? ==> o.store == s
    ensures o.result.Ok? && session.Some? && OwnsTransaction(s, session.value, id) ==>
              var v := Get(s.transactions, id).value.(
                datetime := form.datetime, description := form.description,
                amount := Utils.ConvertToMiliunits(form.amount),
                accountId := form.accountId, categoryId := form.categoryId);
              && o.result.value == [Row(id, v)]
              && o.store == s.(transactions := SetVal(s.transactions, id, v))
              && Valid(o.store)
  {
    match session
    case None => Outcome(Err(Unauthorized), s)
    case Some(u) =>
      if OwnsTransaction(s, u, id) then
        var v := Get(s.transactions, id).value.(
          datetime := form.datetime, description := form.description,
          amount := Utils.ConvertToMiliunits(form.amount),
          accountId := form.accountId, categoryId := form.categoryId);
        Commit(s, s.(transactions := SetVal(s.transactions, id, v)), [Row(id, v)])
      else
        Outcome(Ok([]), s)
  }

  /**
   * An update of the caller's transaction is accepted exactly when the new
   * account and category exist and the new description fits its column:
   * moving it onto another user's account is accepted.
   */
  lemma UpdateTransactionAccepted(s: Store, user: Id, id: Id, form: TransactionForm)
    requires Valid(s)
    requires OwnsTransaction(s, user, id)
    ensures UpdateTransaction(s, Some(user), id, form).result.Ok? <==>
            form.accountId in Ids(s.accounts) && RefIn(form.categoryId, Ids(s.categories)) && Fits(form.description)
  {
    var before := Get(s.transactions, id).value;
    assert Row(id, before) in s.transactions;
    var v := before.(
      datetime := form.datetime, description := form.description,
      amount := Utils.ConvertToMiliunits(form.amount),
      accountId := form.accountId, categoryId := form.categoryId);
    SetTransactionValid(s, id, v);
  }

  /**
   * `updateTransactionBudget`: connects the caller's transaction to a budget
   * category. The form's plan is not checked, nor who owns the category.
   */
  function UpdateTransactionBudget(s: Store, session: Session, id: Id, form: ConnectBudgetForm)
    : (o: Outcome<Row<Transaction>>)
    ensures session.None? ==> o == Outcome(Err(Unauthorized), s)
    ensures session.Some? && !OwnsTransaction(s, session.value, id) ==> o == Outcome(Ok([]), s)
    ensures !o.result.Ok? ==> o.store == s
    ensures o.result.Ok? && session.Some? && OwnsTransaction(s, session.value, id) ==>
              var v := Get(s.transactions, id).value.(budgetCategoryId := Some(form.categoryId));
              && o.result.value == [Row(id, v)]
              && o.store == s.(transactions := SetVal(s.transactions, id, v))
              && Valid(o.store)
  {
    match session
    case None => Outcome(Err(Unauthorized), s)
    case Some(u) =>
      if OwnsTransaction(s, u, id) then
        var v := Get(s.transactions, id).value.(budgetCategoryId := Some(form.categoryId));
        Commit(s, s.(transactions := SetVal(s.transactions, id, v)), [Row(id, v)])
      else
        Outcome(Ok([]), s)
  }

  /** The connection is accepted exactly when the budget category exists, whichever plan it is in. */
  lemma UpdateTransactionBudgetAccepted(s: Store, user: Id, id: Id, form: ConnectBudgetForm)
    requires Valid(s)
    requires OwnsTransaction(s, user, id)
    ensures UpdateTransactionBudget(s, Some(user), id, form).result.Ok? <==>
            form.categoryId in Ids(s.budgetCategories)
  {
    var before := Get(s.transactions, id).value;
    assert Row(id, before) in s.transactions;
    SetTransactionValid(s, id, before.(budgetCategoryId := Some(form.categoryId)));
  }

  /** `updateTransactionShopping`: links the caller's transaction to a shopping plan, whoever owns it. */
  function UpdateTransactionShopping(s: Store, session: Session, id: Id, form: LinkShoppingForm)
    : (o: Outcome<Row<Transaction>>)
    ensures session.None? ==> o == Outcome(Err(Unauthorized), s)
    ensures session.Some? && !OwnsTransaction(s, session.value, id) ==> o == Outcome(Ok([]), s)
    ensures !o.result.Ok? ==> o.store == s
    ensures o.result.Ok? && session.Some? && OwnsTransaction(s, session.value, id) ==>
              var v := Get(s.transactions, id).value.(shoppingPlanId := Some(form.planId));
              && o.result.value == [Row(id, v)]
              && o.store == s.(transactions := SetVal(s.transactions, id, v))
              && Valid(o.store)
  {
    match session
    case None => Outcome(Err(Unauthorized), s)
    case Some(u) =>
      if OwnsTransaction(s, u, id) then
        var v := Get(s.transactions, id).value.(shoppingPlanId := Some(form.planId));
        Commit(s, s.(transactions := SetVal(s.transactions, id, v)), [Row(id, v)])
      else
        Outcome(Ok([]), s)
  }

  /** The link is accepted exactly when the shopping plan exists. */
  lemma UpdateTransactionShoppingAccepted(s: Store, user: Id, id: Id, form: LinkShoppingForm)
    requires Valid(s)
    requires OwnsTransaction(s, user, id)
    ensures UpdateTransactionShopping(s, Some(user), id, form).result.Ok? <==>
            form.planId in Ids(s.shoppingPlans)
  {
    var before := Get(s.transactions, id).value;
    assert Row(id, before) in s.transactions;
    SetTransactionValid(s, id, before.(shoppingPlanId := Some(form.planId)));
  }

  /** The requested ids that name a transaction of the caller. */
  function OwnedAmong(s: Store, user: Id, ids: seq<Id>): (r: set<Id>)
    ensures forall id :: id in r <==> id in ids && OwnsTransaction(s, user, id)
  {
    set id | id in ids && OwnsTransaction(s, user, id)
  }

  /**
   * `deleteTransactions`: deletes those of the requested transactions that
   * are the caller's; the others, requested or not, stay.
   */
  function DeleteTransactions(s: Store, session: Session, ids: seq<Id>): (o: Outcome<Row<Transaction>>)
    ensures session.None? ==> o == Outcome(Err(Unauthorized), s)
    ensures session.Some? ==>
              && o.result.Ok?
              && o.store == s.(transactions := o.store.transactions)
              && Ids(o.store.transactions) == Ids(s.transactions) - OwnedAmong(s, session.value, ids)
              && (forall t | t in o.store.transactions :: t in s.transactions)
              && (forall t | t in s.transactions && t.id !in OwnedAmong(s, session.value, ids) ::
                    t in o.store.transactions)
              && (forall t | t in o.result.value ::
                    t in s.transactions && t.id in ids && OwnsTransaction(s, session.value, t.id))
              && (forall t | t in s.transactions && t.id in OwnedAmong(s, session.value, ids) ::
                    t in o.result.value)
    ensures session.Some? ==> Ids(o.result.value) == Ids(s.transactions) - Ids(o.store.transactions)
    ensures session.Some? && KeysUnique(s.transactions) ==> KeysUnique(o.result.value)
    ensures session.Some? && OwnedAmong(s, session.value, ids) == {} ==> o.store == s
  {
    match session
    case None => Outcome(Err(Unauthorized), s)
    case Some(u) =>
      var owned := OwnedAmong(s, u, ids);
      var next := DeleteTransactionRows(s, owned);
      RemovedRowsReturned(s.transactions, owned, next.transactions);
      Outcome(Ok(RowsWithIds(s.transactions, owned)), next)
  }

  lemma DeleteTransactionsValid(s: Store, session: Session, ids: seq<Id>)
    requires Valid(s)
    ensures Valid(DeleteTransactions(s, session, ids).store)
  {
    if session.Some? {
      DeleteTransactionRowsValid(s, OwnedAmong(s, session.value, ids));
    }
  }

  /** `deleteTransaction`: deletes the caller's transaction with the given id. */
  function DeleteTransaction(s: Store, session: Session, id: Id): (o: Outcome<Row<Transaction>>)
    ensures session.None? ==> o == Outcome(Err(Unauthorized), s)
    ensures session.Some? && !OwnsTransaction(s, session.value, id) ==> o == Outcome(Ok([]), s)
    ensures session.Some? && OwnsTransaction(s, session.value, id) ==>
              && o.result.Ok?
              && o.result.value == [Row(id, Get(s.transactions, id).value)]
              && Ids(o.store.transactions) == Ids(s.transactions) - {id}
              && (forall t | t in s.transactions && t.id != id :: t in o.store.transactions)
              && o.store == s.(transactions := o.store.transactions)
  {
    match session
    case None => Outcome(Err(Unauthorized), s)
    case Some(u) =>
      if OwnsTransaction(s, u, id) then
        Outcome(Ok([Row(id, Get(s.transactions, id).value)]), DeleteTransactionRows(s, {id}))
      else
        Outcome(Ok([]), s)
  }

  lemma DeleteTransactionValid(s: Store, session: Session, id: Id)
    requires Valid(s)
    ensures Valid(DeleteTransaction(s, session, id).store)
  {
    DeleteTransactionRowsValid(s, {id});
  }
}

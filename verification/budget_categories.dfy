/**
 * The budget-category server functions: the categories of one budget plan,
 * fetch one, create, update and delete. A category belongs to whoever owns
 * its plan; money arrives from the form in units and is stored in miliunits.
 */
module BudgetCategories {
  import opened Wrappers
  import opened Tables
  import opened Schema
  import opened Access
  import Utils

  /** The validated budget-category form; `amount` is in units. */
  datatype CategoryForm = CategoryForm(name: string, amount: real)

  /** Selects the budget categories of a plan. */
  function InPlan(plan: Id): Row<BudgetCategory> -> bool {
    (c: Row<BudgetCategory>) => c.val.budgetPlanId == plan
  }

  function CategoriesOf(s: Store, plan: Id): Table<BudgetCategory> {
    Where(s.budgetCategories, InPlan(plan))
  }

  /** The categories of a plan are exactly the stored categories that name it. */
  lemma CategoriesOfMembers(s: Store, plan: Id)
    ensures forall c :: c in CategoriesOf(s, plan) <==> c in s.budgetCategories && c.val.budgetPlanId == plan
  {
    WhereWithin(s.budgetCategories, InPlan(plan));
    WhereMember(s.budgetCategories, InPlan(plan));
  }

  /**
   * `getBudgetPlanCategories(id)`: the categories of the caller's plan with
   * the given id; nothing when the plan is not the caller's.
   */
  function GetBudgetPlanCategories(s: Store, session: Session, plan: Id): (r: Result<Table<BudgetCategory>>)
    ensures session.None? ==> r == Err(Unauthorized)
    ensures session.Some? ==> r.Ok?
    ensures session.Some? && !OwnsBudgetPlan(s, session.value, plan) ==> r.value == []
    ensures session.Some? ==>
              forall c | c in r.value :: c in s.budgetCategories && c.val.budgetPlanId == plan
    ensures session.Some? && OwnsBudgetPlan(s, session.value, plan) ==>
              forall c | c in s.budgetCategories && c.val.budgetPlanId == plan :: c in r.value
    ensures session.Some? && OwnsBudgetPlan(s, session.value, plan) ==>
              |r.value| == |Where(s.budgetCategories, InPlan(plan))|
    ensures session.Some? && KeysUnique(s.budgetCategories) ==> KeysUnique(r.value)
  {
    match session
    case None => Err(Unauthorized)
    case Some(u) =>
      CategoriesOfMembers(s, plan);
      WhereKeysUnique(s.budgetCategories, InPlan(plan));
      if OwnsBudgetPlan(s, u, plan) then Ok(CategoriesOf(s, plan)) else Ok([])
  }

  /** `getBudgetPlanCategory`: the category with the given id when its plan is the caller's. */
  function GetBudgetPlanCategory(s: Store, session: Session, id: Id): (r: Result<Table<BudgetCategory>>)
    ensures session.None? ==> r == Err(Unauthorized)
    ensures session.Some? ==> r.Ok? && |r.value| <= 1
    ensures session.Some? ==>
              forall c | c in r.value :: c in s.budgetCategories && c.id == id &&
                OwnsBudgetPlan(s, session.value, c.val.budgetPlanId)
    ensures session.Some? && KeysUnique(s.budgetCategories) ==>
              (r.value != [] <==> OwnsBudgetCategory(s, session.value, id))
  {
    match session
    case None => Err(Unauthorized)
    case Some(u) => Ok(SelectById(s.budgetCategories, id, (c: BudgetCategory) => OwnsBudgetPlan(s, u, c.budgetPlanId)))
  }

  /** The row an insert writes: the form's name, its amount in miliunits, the given plan. */
  function NewCategory(plan: Id, now: int, form: CategoryForm): (c: BudgetCategory)
    ensures Utils.ConvertFromMiliunits(c.amount) == form.amount
    ensures c.name == form.name && c.budgetPlanId == plan
  {
    Utils.MiliunitsRoundTrip(form.amount);
    BudgetCategory(form.name, Utils.ConvertToMiliunits(form.amount), plan, now)
  }

  /**
   * `createBudgetPlanCategory`: inserts a category into the plan with the
   * given id. Whose plan it is goes unchecked.
   */
  function CreateBudgetPlanCategory(s: Store, session: Session, plan: Id, id: Id, now: int, form: CategoryForm)
    : (o: Outcome<Row<BudgetCategory>>)
    ensures session.None? ==> o == Outcome(Err(Unauthorized), s)
    ensures !o.result.Ok? ==> o.store == s
    ensures o.result.Ok? ==>
              && o.result.value == [Row(id, NewCategory(plan, now, form))]
              && o.store == s.(budgetCategories := s.budgetCategories + o.result.value)
              && Valid(o.store)
  {
    match session
    case None => Outcome(Err(Unauthorized), s)
    case Some(_) =>
      var row := Row(id, NewCategory(plan, now, form));
      Commit(s, s.(budgetCategories := s.budgetCategories + [row]), [row])
  }

  /**
   * The insert is accepted exactly when the id is new, the plan exists,
   * whoever owns it, and the name fits its `varchar(256)` column.
   */
  lemma CreateBudgetPlanCategoryAccepted(s: Store, user: Id, plan: Id, id: Id, now: int, form: CategoryForm)
    requires Valid(s)
    ensures CreateBudgetPlanCategory(s, Some(user), plan, id, now, form).result.Ok? <==>
            id !in Ids(s.budgetCategories) && plan in Ids(s.budgetPlans) && Fits(form.name)
  {
    var row := Row(id, NewCategory(plan, now, form));
    var next := s.(budgetCategories := s.budgetCategories + [row]);
    AppendRow(s.budgetCategories, row.id, row.val);
    assert row in next.budgetCategories;
    if id !in Ids(s.budgetCategories) && plan in Ids(s.budgetPlans) && Fits(form.name) {
      forall c | c in next.budgetCategories ensures c.val.budgetPlanId in Ids(next.budgetPlans) && Fits(c.val.name) {
        if c != row {
          assert c in s.budgetCategories;
        }
      }
      assert Valid(next);
    }
  }

  /**
   * `updateBudgetPlanCategory`: sets the name and the miliunit amount of a
   * category of the caller's; only the one row changes.
   */
  function UpdateBudgetPlanCategory(s: Store, session: Session, id: Id, form: CategoryForm)
    : (o: Outcome<Row<BudgetCategory>>)
    ensures session.None? ==> o == Outcome(Err(Unauthorized), s)
    ensures session.Some? && !OwnsBudgetCategory(s, session.value, id) ==> o == Outcome(Ok([]), s)
    ensures !o.result.Ok? ==> o.store == s
    ensures o.result.Ok? && session.Some? && OwnsBudgetCategory(s, session.value, id) ==>
              var v := Get(s.budgetCategories, id).value.(
                name := form.name, amount := Utils.ConvertToMiliunits(form.amount));
              && o.result == Ok([Row(id, v)])
              && Utils.ConvertFromMiliunits(v.amount) == form.amount
              && o.store == s.(budgetCategories := o.store.budgetCategories)
              && Ids(o.store.budgetCategories) == Ids(s.budgetCategories)
              && (forall c | c in s.budgetCategories && c.id != id :: c in o.store.budgetCategories)
              && (forall c | c in o.store.budgetCategories && c.id != id :: c in s.budgetCategories)
              && (KeysUnique(s.budgetCategories) ==> Get(o.store.budgetCategories, id) == Some(v))
              && Valid(o.store)
  {
    match session
    case None => Outcome(Err(Unauthorized), s)
    case Some(u) =>
      if OwnsBudgetCategory(s, u, id) then
        var v := Get(s.budgetCategories, id).value.(
          name := form.name, amount := Utils.ConvertToMiliunits(form.amount));
        SetValGet(s.budgetCategories, id, v, id);
        Utils.MiliunitsRoundTrip(form.amount);
        Commit(s, s.(budgetCategories := SetVal(s.budgetCategories, id, v)), [Row(id, v)])
      else
        Outcome(Ok([]), s)
  }

  /** An update of the caller's budget category is accepted exactly when the new name fits its column. */
  lemma UpdateBudgetPlanCategoryAccepted(s: Store, user: Id, id: Id, form: CategoryForm)
    requires Valid(s)
    requires OwnsBudgetCategory(s, user, id)
    ensures UpdateBudgetPlanCategory(s, Some(user), id, form).result.Ok? <==> Fits(form.name)
  {
    var before := Get(s.budgetCategories, id).value;
    assert Row(id, before) in s.budgetCategories;
    SetBudgetCategoryValid(s, id, before.(name := form.name, amount := Utils.ConvertToMiliunits(form.amount)));
  }

  lemma UpdateBudgetPlanCategoryValid(s: Store, session: Session, id: Id, form: CategoryForm)
    requires Valid(s)
    ensures Valid(UpdateBudgetPlanCategory(s, session, id, form).store)
  {
  }

  /** Deleting budget categories clears exactly the connections to them and keeps every transaction. */
  lemma DeleteBudgetCategoryRowsUnlinks(s: Store, ids: set<Id>)
    ensures var next := DeleteBudgetCategoryRows(s, ids);
            && Ids(next.transactions) == Ids(s.transactions)
            && (forall t | t in next.transactions :: t.val.budgetCategoryId.None? || t.val.budgetCategoryId.value !in ids)
            && (forall t | t in s.transactions && !(t.val.budgetCategoryId.Some? && t.val.budgetCategoryId.value in ids) ::
                  t in next.transactions)
  {
    var next := DeleteBudgetCategoryRows(s, ids);
    MapValsKeys(s.transactions,
      (x: Row<Transaction>) => x.val.(budgetCategoryId := Unlink(x.val.budgetCategoryId, ids)));
    forall t | t in s.transactions && !(t.val.budgetCategoryId.Some? && t.val.budgetCategoryId.value in ids)
      ensures t in next.transactions
    {
      var i :| 0 <= i < |s.transactions| && s.transactions[i] == t;
      assert next.transactions[i] == t;
    }
    forall t | t in next.transactions ensures t.val.budgetCategoryId.None? || t.val.budgetCategoryId.value !in ids {
      var i :| 0 <= i < |next.transactions| && next.transactions[i] == t;
    }
  }

  /** The requested ids that name a budget category of the caller's. */
  function OwnedAmong(s: Store, user: Id, ids: seq<Id>): (r: set<Id>)
    ensures forall id :: id in r <==> id in ids && OwnsBudgetCategory(s, user, id)
  {
    set id | id in ids && OwnsBudgetCategory(s, user, id)
  }

  /**
   * `deleteBudgetCategories`: deletes those of the requested categories whose
   * plan is the caller's; transactions connected to them are disconnected.
   */
  function DeleteBudgetCategories(s: Store, session: Session, ids: seq<Id>): (o: Outcome<Row<BudgetCategory>>)
    ensures session.None? ==> o == Outcome(Err(Unauthorized), s)
    ensures session.Some? ==>
              var owned := OwnedAmong(s, session.value, ids);
              && o.result.Ok?
              && o.store == s.(budgetCategories := o.store.budgetCategories, transactions := o.store.transactions)
              && Ids(o.store.budgetCategories) == Ids(s.budgetCategories) - owned
              && (forall c | c in o.store.budgetCategories :: c in s.budgetCategories)
              && (forall c | c in s.budgetCategories && c.id !in owned :: c in o.store.budgetCategories)
              && (forall c | c in o.result.value :: c in s.budgetCategories && c.id in owned)
              && (forall c | c in s.budgetCategories && c.id in owned :: c in o.result.value)
              && Ids(o.store.transactions) == Ids(s.transactions)
              && |o.store.transactions| == |s.transactions|
              && (forall i | 0 <= i < |s.transactions| ::
                    o.store.transactions[i] == Row(s.transactions[i].id,
                      s.transactions[i].val.(budgetCategoryId := Unlink(s.transactions[i].val.budgetCategoryId, owned))))
              && (forall t | t in o.store.transactions :: t.val.budgetCategoryId.None? || t.val.budgetCategoryId.value !in owned)
              && (forall t | t in s.transactions && !(t.val.budgetCategoryId.Some? && t.val.budgetCategoryId.value in owned) ::
                    t in o.store.transactions)
    ensures session.Some? ==> Ids(o.result.value) == Ids(s.budgetCategories) - Ids(o.store.budgetCategories)
    ensures session.Some? && KeysUnique(s.budgetCategories) ==> KeysUnique(o.result.value)
    ensures session.Some? && OwnedAmong(s, session.value, ids) == {} ==> o.store == s
  {
    match session
    case None => Outcome(Err(Unauthorized), s)
    case Some(u) =>
      var owned := OwnedAmong(s, u, ids);
      DeleteBudgetCategoryRowsUnlinks(s, owned);
      if owned == {} then
        Outcome(Ok([]), s)
      else
        var next := DeleteBudgetCategoryRows(s, owned);
        RemovedRowsReturned(s.budgetCategories, owned, next.budgetCategories);
        Outcome(Ok(RowsWithIds(s.budgetCategories, owned)), next)
  }

  lemma DeleteBudgetCategoriesValid(s: Store, session: Session, ids: seq<Id>)
    requires Valid(s)
    ensures Valid(DeleteBudgetCategories(s, session, ids).store)
  {
    if session.Some? {
      DeleteBudgetCategoryRowsValid(s, OwnedAmong(s, session.value, ids));
    }
  }

  /** `deleteBudgetPlanCategory`: deletes the category with the given id when its plan is the caller's. */
  function DeleteBudgetPlanCategory(s: Store, session: Session, id: Id): (o: Outcome<Row<BudgetCategory>>)
    ensures session.None? ==> o == Outcome(Err(Unauthorized), s)
    ensures session.Some? && !OwnsBudgetCategory(s, session.value, id) ==> o == Outcome(Ok([]), s)
    ensures session.Some? && OwnsBudgetCategory(s, session.value, id) ==>
              && o.result == Ok([Row(id, Get(s.budgetCategories, id).value)])
              && o.store == s.(budgetCategories := o.store.budgetCategories, transactions := o.store.transactions)
              && Ids(o.store.budgetCategories) == Ids(s.budgetCategories) - {id}
              && (forall c | c in s.budgetCategories && c.id != id :: c in o.store.budgetCategories)
              && (forall c | c in o.store.budgetCategories :: c in s.budgetCategories)
              && Ids(o.store.transactions) == Ids(s.transactions)
              && |o.store.transactions| == |s.transactions|
              && (forall i | 0 <= i < |s.transactions| ::
                    o.store.transactions[i] == Row(s.transactions[i].id,
                      s.transactions[i].val.(budgetCategoryId := Unlink(s.transactions[i].val.budgetCategoryId, {id}))))
              && (forall t | t in o.store.transactions :: t.val.budgetCategoryId != Some(id))
              && (forall t | t in s.transactions && t.val.budgetCategoryId != Some(id) :: t in o.store.transactions)
  {
    match session
    case None => Outcome(Err(Unauthorized), s)
    case Some(u) =>
      if OwnsBudgetCategory(s, u, id) then
        DeleteBudgetCategoryRowsUnlinks(s, {id});
        Outcome(Ok([Row(id, Get(s.budgetCategories, id).value)]), DeleteBudgetCategoryRows(s, {id}))
      else
        Outcome(Ok([]), s)
  }

  lemma DeleteBudgetPlanCategoryValid(s: Store, session: Session, id: Id)
    requires Valid(s)
    ensures Valid(DeleteBudgetPlanCategory(s, session, id).store)
  {
    DeleteBudgetCategoryRowsValid(s, {id});
  }
}

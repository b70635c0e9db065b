/**
 * The budget-plan server functions: the plan summaries (each category's
 * budget and spend, and the plan's total budget), the plan list, the
 * category pick-lists, fetch one, create, update and delete, each restricted
 * to the signed-in user's plans.
 */
module BudgetPlans {
  import opened Wrappers
  import opened Tables
  import opened Schema
  import opened Access
  import opened Sorting
  import BudgetCategories

  /** The validated budget-plan form. */
  datatype PlanForm = PlanForm(title: string)

  /** A category of a plan summary: its budget and the amounts of the transactions connected to it. */
  datatype CategoryLine = CategoryLine(id: Id, name: string, amount: real, spend: real)

  /** A row of the plan summaries: the plan, its total budget and its categories. */
  datatype PlanSummary = PlanSummary(id: Id, title: string, total: real, budgetCategories: seq<CategoryLine>)

  /** Selects the transactions connected to a budget category. */
  function ConnectedTo(category: Id): Row<Transaction> -> bool {
    (t: Row<Transaction>) => t.val.budgetCategoryId == Some(category)
  }

  /**
   * What a category has spent: the summed amounts of the transactions
   * connected to it, 0 when there are none. Whose account a transaction is
   * on plays no part.
   */
  function Spend(s: Store, category: Id): real {
    Sum(Where(s.transactions, ConnectedTo(category)), Amount)
  }

  function LineOf(s: Store, c: Row<BudgetCategory>): CategoryLine {
    CategoryLine(c.id, c.val.name, c.val.amount, Spend(s, c.id))
  }

  function Budget(c: Row<BudgetCategory>): real { c.val.amount }

  function LineAmount(l: CategoryLine): real { l.amount }

  /** Category lines ordered by name. */
  function ByName(a: CategoryLine, b: CategoryLine): bool {
    LexLe(a.name, b.name)
  }

  lemma ByNameOrders()
    ensures Total(ByName) && Transitive(ByName)
  {
    forall a: CategoryLine, b: CategoryLine ensures ByName(a, b) || ByName(b, a) {
      LexLeTotal(a.name, b.name);
    }
    forall a: CategoryLine, b: CategoryLine, c: CategoryLine | ByName(a, b) && ByName(b, c)
      ensures ByName(a, c)
    {
      LexLeTransitive(a.name, b.name, c.name);
    }
  }

  /** The lines of a plan's categories, by name; their budgets add up to the plan's. */
  function Lines(s: Store, plan: Id): (r: seq<CategoryLine>)
    ensures |r| == |BudgetCategories.CategoriesOf(s, plan)|
    ensures SortedBy(r, ByName)
    ensures Sum(r, LineAmount) == Sum(BudgetCategories.CategoriesOf(s, plan), Budget)
  {
    var categories := BudgetCategories.CategoriesOf(s, plan);
    var line := (c: Row<BudgetCategory>) => LineOf(s, c);
    var lines := Project(categories, line);
    ByNameOrders();
    SortBySorted(lines, ByName);
    SumSortBy(lines, ByName, LineAmount);
    SumProject(categories, line, LineAmount, Budget);
    SortBy(lines, ByName)
  }

  /** A plan's lines are exactly the lines of the categories that belong to it. */
  lemma LinesMembers(s: Store, plan: Id)
    ensures forall x | x in Lines(s, plan) ::
              exists c | c in s.budgetCategories :: c.val.budgetPlanId == plan && x == LineOf(s, c)
    ensures forall c | c in s.budgetCategories && c.val.budgetPlanId == plan :: LineOf(s, c) in Lines(s, plan)
  {
    var line := (c: Row<BudgetCategory>) => LineOf(s, c);
    ProjectWhereCovers(s.budgetCategories, BudgetCategories.InPlan(plan), line);
    SortByMembers(Project(BudgetCategories.CategoriesOf(s, plan), line), ByName);
  }

  /** A plan's summary row; the left join leaves a plan without categories with none and a total of 0. */
  function PlanLine(s: Store, p: Row<BudgetPlan>): (r: PlanSummary)
    ensures r.id == p.id && r.title == p.val.title
    ensures r.total == Sum(r.budgetCategories, LineAmount)
    ensures SortedBy(r.budgetCategories, ByName)
    ensures BudgetCategories.CategoriesOf(s, p.id) == [] ==> r.total == 0.0 && r.budgetCategories == []
  {
    PlanSummary(p.id, p.val.title, Sum(BudgetCategories.CategoriesOf(s, p.id), Budget), Lines(s, p.id))
  }

  /** Selects the budget plans of a user. */
  function OwnedBy(user: Id): Row<BudgetPlan> -> bool {
    (p: Row<BudgetPlan>) => p.val.userId == user
  }

  function OwnedPlans(s: Store, user: Id): Table<BudgetPlan> {
    Where(s.budgetPlans, OwnedBy(user))
  }

  /** Budget plans ordered newest first. */
  function NewestFirst(a: Row<BudgetPlan>, b: Row<BudgetPlan>): bool {
    a.val.createdAt >= b.val.createdAt
  }

  lemma NewestFirstOrders()
    ensures Total(NewestFirst) && Transitive(NewestFirst)
  {
  }

  /** When a plan was created, as found under its id. */
  function PlanCreatedAt(s: Store, id: Id): int {
    match Get(s.budgetPlans, id)
    case Some(p) => p.createdAt
    case None => 0
  }

  function SummaryRows(s: Store, user: Id): seq<PlanSummary> {
    Project(SortBy(OwnedPlans(s, user), NewestFirst), (p: Row<BudgetPlan>) => PlanLine(s, p))
  }

  /** The summary holds one row per plan of the user and nothing else. */
  lemma SummaryRowsMembers(s: Store, user: Id)
    ensures |SummaryRows(s, user)| == |OwnedPlans(s, user)|
    ensures forall x | x in SummaryRows(s, user) ::
              exists p | p in s.budgetPlans :: p.val.userId == user && x == PlanLine(s, p)
    ensures forall p | p in s.budgetPlans && p.val.userId == user :: PlanLine(s, p) in SummaryRows(s, user)
  {
    SortedImageCovers(s.budgetPlans, OwnedBy(user), NewestFirst, (p: Row<BudgetPlan>) => PlanLine(s, p));
  }

  /** Under a unique key, the summary lists the plans newest first. */
  lemma SummaryRowsOrdered(s: Store, user: Id)
    requires KeysUnique(s.budgetPlans)
    ensures forall i, j | 0 <= i < j < |SummaryRows(s, user)| ::
              PlanCreatedAt(s, SummaryRows(s, user)[i].id) >= PlanCreatedAt(s, SummaryRows(s, user)[j].id)
  {
    var plans := OwnedPlans(s, user);
    var sorted := SortBy(plans, NewestFirst);
    var r := SummaryRows(s, user);
    NewestFirstOrders();
    SortBySorted(plans, NewestFirst);
    SortByMembers(plans, NewestFirst);
    WhereWithin(s.budgetPlans, OwnedBy(user));
    forall i | 0 <= i < |sorted| ensures PlanCreatedAt(s, r[i].id) == sorted[i].val.createdAt {
      assert sorted[i] in plans;
      GetRow(s.budgetPlans, sorted[i]);
    }
  }

  /**
   * `getBudgetPlansSummary`: one row per plan of the caller, newest first,
   * with its categories by name and its total budget.
   */
  function GetBudgetPlansSummary(s: Store, session: Session): (r: Result<seq<PlanSummary>>)
    ensures session.None? ==> r == Err(Unauthorized)
    ensures session.Some? ==> r.Ok? && |r.value| == |OwnedPlans(s, session.value)|
    ensures session.Some? ==>
              forall x | x in r.value :: exists p | p in s.budgetPlans ::
                p.val.userId == session.value && x == PlanLine(s, p)
    ensures session.Some? ==>
              forall p | p in s.budgetPlans && p.val.userId == session.value :: PlanLine(s, p) in r.value
    ensures session.Some? && KeysUnique(s.budgetPlans) ==>
              forall i, j | 0 <= i < j < |r.value| :: PlanCreatedAt(s, r.value[i].id) >= PlanCreatedAt(s, r.value[j].id)
  {
    match session
    case None => Err(Unauthorized)
    case Some(u) =>
      SummaryRowsMembers(s, u);
      if KeysUnique(s.budgetPlans) then
        SummaryRowsOrdered(s, u);
        Ok(SummaryRows(s, u))
      else
        Ok(SummaryRows(s, u))
  }

  /** `getBudgetPlans`: the caller's plans. */
  function GetBudgetPlans(s: Store, session: Session): (r: Result<Table<BudgetPlan>>)
    ensures session.None? ==> r == Err(Unauthorized)
    ensures session.Some? ==> r.Ok?
    ensures session.Some? ==> forall p :: p in r.value <==> p in s.budgetPlans && p.val.userId == session.value
    ensures session.Some? ==> |r.value| == |Where(s.budgetPlans, OwnedBy(session.value))|
    ensures session.Some? && KeysUnique(s.budgetPlans) ==> KeysUnique(r.value)
  {
    match session
    case None => Err(Unauthorized)
    case Some(u) =>
      WhereKeysUnique(s.budgetPlans, OwnedBy(u));
      WhereWithin(s.budgetPlans, OwnedBy(u));
      WhereMember(s.budgetPlans, OwnedBy(u));
      Ok(OwnedPlans(s, u))
  }

  /** An entry of a category pick-list: its `label` (here `caption`, a reserved word aside) and `value`. */
  datatype CategoryOption = CategoryOption(caption: string, value: Id)

  /** A plan with the pick-list of its categories. */
  datatype PlanOptions = PlanOptions(id: Id, categories: seq<CategoryOption>)

  function OptionOf(c: Row<BudgetCategory>): CategoryOption {
    CategoryOption(c.val.name, c.id)
  }

  /** Budget categories ordered newest first. */
  function NewestCategoryFirst(a: Row<BudgetCategory>, b: Row<BudgetCategory>): bool {
    a.val.createdAt >= b.val.createdAt
  }

  lemma NewestCategoryFirstOrders()
    ensures Total(NewestCategoryFirst) && Transitive(NewestCategoryFirst)
  {
  }

  /** When a budget category was created, as found under its id. */
  function CategoryCreatedAt(s: Store, id: Id): int {
    match Get(s.budgetCategories, id)
    case Some(c) => c.createdAt
    case None => 0
  }

  /** The pick-list of a plan's categories, newest first. */
  function Options(s: Store, plan: Id): (r: seq<CategoryOption>)
    ensures |r| == |BudgetCategories.CategoriesOf(s, plan)|
  {
    Project(SortBy(BudgetCategories.CategoriesOf(s, plan), NewestCategoryFirst), OptionOf)
  }

  /** A plan's pick-list names exactly its categories. */
  lemma OptionsMembers(s: Store, plan: Id)
    ensures forall x | x in Options(s, plan) ::
              exists c | c in s.budgetCategories :: c.val.budgetPlanId == plan && x == OptionOf(c)
    ensures forall c | c in s.budgetCategories && c.val.budgetPlanId == plan :: OptionOf(c) in Options(s, plan)
  {
    SortedImageCovers(s.budgetCategories, BudgetCategories.InPlan(plan), NewestCategoryFirst, OptionOf);
  }

  /** Under a unique key, a plan's pick-list runs newest first. */
  lemma OptionsOrdered(s: Store, plan: Id)
    requires KeysUnique(s.budgetCategories)
    ensures forall i, j | 0 <= i < j < |Options(s, plan)| ::
              CategoryCreatedAt(s, Options(s, plan)[i].value) >= CategoryCreatedAt(s, Options(s, plan)[j].value)
  {
    var categories := BudgetCategories.CategoriesOf(s, plan);
    var sorted := SortBy(categories, NewestCategoryFirst);
    var r := Options(s, plan);
    NewestCategoryFirstOrders();
    SortBySorted(categories, NewestCategoryFirst);
    SortByMembers(categories, NewestCategoryFirst);
    WhereWithin(s.budgetCategories, BudgetCategories.InPlan(plan));
    forall i | 0 <= i < |sorted| ensures CategoryCreatedAt(s, r[i].value) == sorted[i].val.createdAt {
      assert sorted[i] in categories;
      GetRow(s.budgetCategories, sorted[i]);
    }
  }

  /** Selects the user's plans that have at least one category (the inner join). */
  function Listed(s: Store, user: Id): Row<BudgetPlan> -> bool {
    (p: Row<BudgetPlan>) => p.val.userId == user && BudgetCategories.CategoriesOf(s, p.id) != []
  }

  function PlanOptionsOf(s: Store, p: Row<BudgetPlan>): PlanOptions {
    PlanOptions(p.id, Options(s, p.id))
  }

  /**
   * `getBudgetPlanCategories`: for each plan of the caller that has
   * categories, the pick-list of its categories; plans without any are left
   * out.
   */
  function GetBudgetPlanCategories(s: Store, session: Session): (r: Result<seq<PlanOptions>>)
    ensures session.None? ==> r == Err(Unauthorized)
    ensures session.Some? ==> r.Ok?
    ensures session.Some? ==> forall x | x in r.value :: x.categories != []
    ensures session.Some? ==>
              forall x | x in r.value :: exists p | p in s.budgetPlans ::
                p.val.userId == session.value && x == PlanOptionsOf(s, p)
    ensures session.Some? ==>
              forall p, c | p in s.budgetPlans && p.val.userId == session.value &&
                            c in s.budgetCategories && c.val.budgetPlanId == p.id ::
                PlanOptionsOf(s, p) in r.value
    ensures session.Some? ==> |r.value| == |Where(s.budgetPlans, Listed(s, session.value))|
    ensures session.Some? && KeysUnique(s.budgetPlans) ==>
              forall i, j | 0 <= i < |r.value| && 0 <= j < |r.value| && r.value[i].id == r.value[j].id :: i == j
  {
    match session
    case None => Err(Unauthorized)
    case Some(u) =>
      var view := (p: Row<BudgetPlan>) => PlanOptionsOf(s, p);
      var r := Project(Where(s.budgetPlans, Listed(s, u)), view);
      ProjectWhereCovers(s.budgetPlans, Listed(s, u), view);
      WhereKeysUnique(s.budgetPlans, Listed(s, u));
      forall p, c | p in s.budgetPlans && p.val.userId == u && c in s.budgetCategories && c.val.budgetPlanId == p.id
        ensures PlanOptionsOf(s, p) in r
      {
        BudgetCategories.CategoriesOfMembers(s, p.id);
        assert c in BudgetCategories.CategoriesOf(s, p.id);
      }
      Ok(r)
  }

  /** `getBudgetPlan`: the caller's plan with the given id, at most one row. */
  function GetBudgetPlan(s: Store, session: Session, id: Id): (r: Result<Table<BudgetPlan>>)
    ensures session.None? ==> r == Err(Unauthorized)
    ensures session.Some? ==> r.Ok? && |r.value| <= 1
    ensures session.Some? ==>
              forall x | x in r.value :: x in s.budgetPlans && x.id == id && x.val.userId == session.value
    ensures session.Some? && KeysUnique(s.budgetPlans) ==>
              (r.value != [] <==> OwnsBudgetPlan(s, session.value, id))
  {
    match session
    case None => Err(Unauthorized)
    case Some(u) => Ok(SelectById(s.budgetPlans, id, (p: BudgetPlan) => p.userId == u))
  }

  /** `createBudgetPlan`: inserts a plan of the caller. */
  function CreateBudgetPlan(s: Store, session: Session, id: Id, now: int, form: PlanForm): (o: Outcome<Row<BudgetPlan>>)
    ensures session.None? ==> o == Outcome(Err(Unauthorized), s)
    ensures !o.result.Ok? ==> o.store == s
    ensures o.result.Ok? ==>
              && session.Some?
              && o.result.value == [Row(id, BudgetPlan(form.title, session.value, now))]
              && o.store == s.(budgetPlans := s.budgetPlans + o.result.value)
              && Valid(o.store)
  {
    match session
    case None => Outcome(Err(Unauthorized), s)
    case Some(u) =>
      var row := Row(id, BudgetPlan(form.title, u, now));
      Commit(s, s.(budgetPlans := s.budgetPlans + [row]), [row])
  }

  /**
   * The insert is accepted exactly when the id is new, the caller exists as
   * a user and the title fits its `varchar(256)` column.
   */
  lemma CreateBudgetPlanAccepted(s: Store, user: Id, id: Id, now: int, form: PlanForm)
    requires Valid(s)
    ensures CreateBudgetPlan(s, Some(user), id, now, form).result.Ok? <==>
            id !in Ids(s.budgetPlans) && user in Ids(s.users) && Fits(form.title)
  {
    var row := Row(id, BudgetPlan(form.title, user, now));
    var next := s.(budgetPlans := s.budgetPlans + [row]);
    AppendRow(s.budgetPlans, row.id, row.val);
    assert row in next.budgetPlans;
    if id !in Ids(s.budgetPlans) && user in Ids(s.users) && Fits(form.title) {
      forall p | p in next.budgetPlans ensures p.val.userId in Ids(next.users) && Fits(p.val.title) {
        if p != row {
          assert p in s.budgetPlans;
        }
      }
      assert BudgetCategoryRefs(next) by {
        forall c | c in next.budgetCategories ensures c.val.budgetPlanId in Ids(next.budgetPlans) {
          assert c.val.budgetPlanId in Ids(s.budgetPlans);
        }
      }
      assert Valid(next);
    }
  }

  /** `updateBudgetPlan`: sets the title of the caller's plan; only the one row changes. */
  function UpdateBudgetPlan(s: Store, session: Session, id: Id, form: PlanForm): (o: Outcome<Row<BudgetPlan>>)
    ensures session.None? ==> o == Outcome(Err(Unauthorized), s)
    ensures session.Some? && !OwnsBudgetPlan(s, session.value, id) ==> o == Outcome(Ok([]), s)
    ensures !o.result.Ok? ==> o.store == s
    ensures o.result.Ok? && session.Some? && OwnsBudgetPlan(s, session.value, id) ==>
              var v := Get(s.budgetPlans, id).value.(title := form.title);
              && o.result == Ok([Row(id, v)])
              && o.store == s.(budgetPlans := o.store.budgetPlans)
              && Ids(o.store.budgetPlans) == Ids(s.budgetPlans)
              && (forall p | p in s.budgetPlans && p.id != id :: p in o.store.budgetPlans)
              && (forall p | p in o.store.budgetPlans && p.id != id :: p in s.budgetPlans)
              && (KeysUnique(s.budgetPlans) ==> Get(o.store.budgetPlans, id) == Some(v))
              && Valid(o.store)
  {
    match session
    case None => Outcome(Err(Unauthorized), s)
    case Some(u) =>
      if OwnsBudgetPlan(s, u, id) then
        var v := Get(s.budgetPlans, id).value.(title := form.title);
        SetValGet(s.budgetPlans, id, v, id);
        Commit(s, s.(budgetPlans := SetVal(s.budgetPlans, id, v)), [Row(id, v)])
      else
        Outcome(Ok([]), s)
  }

  /** A retitling of the caller's plan is accepted exactly when the new title fits its column. */
  lemma UpdateBudgetPlanAccepted(s: Store, user: Id, id: Id, form: PlanForm)
    requires Valid(s)
    requires OwnsBudgetPlan(s, user, id)
    ensures UpdateBudgetPlan(s, Some(user), id, form).result.Ok? <==> Fits(form.title)
  {
    var before := Get(s.budgetPlans, id).value;
    assert Row(id, before) in s.budgetPlans;
    SetBudgetPlanValid(s, id, before.(title := form.title));
  }

  lemma UpdateBudgetPlanValid(s: Store, session: Session, id: Id, form: PlanForm)
    requires Valid(s)
    ensures Valid(UpdateBudgetPlan(s, session, id, form).store)
  {
  }

  /** Whether a transaction is connected to one of the given budget categories. */
  predicate ConnectedToAny(t: Row<Transaction>, categories: set<Id>) {
    t.val.budgetCategoryId.Some? && t.val.budgetCategoryId.value in categories
  }

  /**
   * Deleting budget plans disconnects exactly the transactions connected to
   * their categories and keeps every transaction.
   */
  lemma DeleteBudgetPlanRowsUnlinks(s: Store, ids: set<Id>)
    ensures var next := DeleteBudgetPlanRows(s, ids);
            var gone := CategoriesOfBudgetPlans(s, ids);
            && Ids(next.transactions) == Ids(s.transactions)
            && (forall t | t in next.transactions :: !ConnectedToAny(t, gone))
            && (forall t | t in s.transactions && !ConnectedToAny(t, gone) :: t in next.transactions)
  {
    var next := DeleteBudgetPlanRows(s, ids);
    var gone := CategoriesOfBudgetPlans(s, ids);
    forall x | x in Ids(s.transactions) ensures x in Ids(next.transactions) {
      var i :| 0 <= i < |s.transactions| && s.transactions[i].id == x;
      assert next.transactions[i] in next.transactions;
    }
    forall x | x in Ids(next.transactions) ensures x in Ids(s.transactions) {
      var i :| 0 <= i < |next.transactions| && next.transactions[i].id == x;
      assert s.transactions[i] in s.transactions;
    }
    forall t | t in s.transactions && !ConnectedToAny(t, gone) ensures t in next.transactions {
      var i :| 0 <= i < |s.transactions| && s.transactions[i] == t;
      assert next.transactions[i] == t;
    }
    forall t | t in next.transactions ensures !ConnectedToAny(t, gone) {
      var i :| 0 <= i < |next.transactions| && next.transactions[i] == t;
    }
  }

  /**
   * `deleteBudgetPlan`: deletes the caller's plan with its categories; the
   * transactions connected to those stay, disconnected.
   */
  function DeleteBudgetPlan(s: Store, session: Session, id: Id): (o: Outcome<Row<BudgetPlan>>)
    ensures session.None? ==> o == Outcome(Err(Unauthorized), s)
    ensures session.Some? && !OwnsBudgetPlan(s, session.value, id) ==> o == Outcome(Ok([]), s)
    ensures session.Some? && OwnsBudgetPlan(s, session.value, id) ==>
              var gone := CategoriesOfBudgetPlans(s, {id});
              && o.result == Ok([Row(id, Get(s.budgetPlans, id).value)])
              && o.store == s.(budgetPlans := o.store.budgetPlans, budgetCategories := o.store.budgetCategories,
                               transactions := o.store.transactions)
              && Ids(o.store.budgetPlans) == Ids(s.budgetPlans) - {id}
              && (forall p | p in s.budgetPlans && p.id != id :: p in o.store.budgetPlans)
              && (forall p | p in o.store.budgetPlans :: p in s.budgetPlans)
              && (forall c | c in o.store.budgetCategories :: c in s.budgetCategories && c.val.budgetPlanId != id)
              && (forall c | c in s.budgetCategories && c.val.budgetPlanId != id :: c in o.store.budgetCategories)
              && Ids(o.store.transactions) == Ids(s.transactions)
              && |o.store.transactions| == |s.transactions|
              && (forall i | 0 <= i < |s.transactions| ::
                    o.store.transactions[i] == Row(s.transactions[i].id,
                      s.transactions[i].val.(budgetCategoryId := Unlink(s.transactions[i].val.budgetCategoryId, gone))))
              && (forall t | t in o.store.transactions :: !ConnectedToAny(t, gone))
              && (forall t | t in s.transactions && !ConnectedToAny(t, gone) :: t in o.store.transactions)
  {
    match session
    case None => Outcome(Err(Unauthorized), s)
    case Some(u) =>
      if OwnsBudgetPlan(s, u, id) then
        DeleteBudgetPlanRowsUnlinks(s, {id});
        Outcome(Ok([Row(id, Get(s.budgetPlans, id).value)]), DeleteBudgetPlanRows(s, {id}))
      else
        Outcome(Ok([]), s)
  }

  lemma DeleteBudgetPlanValid(s: Store, session: Session, id: Id)
    requires Valid(s)
    ensures Valid(DeleteBudgetPlan(s, session, id).store)
  {
    DeleteBudgetPlanRowsValid(s, {id});
  }
}

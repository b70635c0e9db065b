/**
 * The eight tables of the database, their column defaults, the foreign-key
 * constraints as a store invariant, and the row deletions with their
 * `on delete cascade` / `on delete set null` consequences.
 */
module Schema {
  import opened Wrappers
  import opened Tables

  datatype User = User(username: Option<string>, email: Option<string>)

  datatype Account = Account(name: string, initialBalance: real, userId: Id, createdAt: int)

  datatype Category = Category(name: string, userId: Id, createdAt: int)

  /** `datetime` is a timestamp in seconds; `amount` is signed miliunits (positive = income). */
  datatype Transaction = Transaction(
    datetime: int,
    description: string,
    amount: real,
    accountId: Id,
    categoryId: Option<Id>,
    shoppingPlanId: Option<Id>,
    budgetCategoryId: Option<Id>,
    createdAt: int)

  datatype ShoppingPlan = ShoppingPlan(datetime: int, title: string, userId: Id, createdAt: int)

  datatype ShoppingItem = ShoppingItem(
    name: string,
    amount: real,
    quantity: int,
    discount: real,
    tax: real,
    total: real,
    shoppingPlanId: Id,
    createdAt: int)

  datatype BudgetPlan = BudgetPlan(title: string, userId: Id, createdAt: int)

  datatype BudgetCategory = BudgetCategory(name: string, amount: real, budgetPlanId: Id, createdAt: int)

  datatype Store = Store(
    users: Table<User>,
    accounts: Table<Account>,
    categories: Table<Category>,
    transactions: Table<Transaction>,
    shoppingPlans: Table<ShoppingPlan>,
    shoppingItems: Table<ShoppingItem>,
    budgetPlans: Table<BudgetPlan>,
    budgetCategories: Table<BudgetCategory>)

  // Column defaults

  const DefaultTitle: string := "Untitled"
  const DefaultBudgetCategoryName: string := "Uncategorized"

  /** A transaction inserted with only its required columns. */
  function DefaultTransaction(datetime: int, accountId: Id, now: int): (t: Transaction)
    ensures t.amount == 0.0 && t.description == DefaultTitle
    ensures t.categoryId.None? && t.shoppingPlanId.None? && t.budgetCategoryId.None?
  {
    Transaction(datetime, DefaultTitle, 0.0, accountId, None, None, None, now)
  }

  /** A shopping item inserted with only its required column. */
  function DefaultShoppingItem(shoppingPlanId: Id, now: int): (item: ShoppingItem)
    ensures item.quantity == 1 && item.name == DefaultTitle
    ensures item.amount == 0.0 && item.discount == 0.0 && item.tax == 0.0 && item.total == 0.0
  {
    ShoppingItem(DefaultTitle, 0.0, 1, 0.0, 0.0, 0.0, shoppingPlanId, now)
  }

  // Foreign keys

  /** A nullable reference is either NULL or names an existing key. */
  predicate RefIn(ref: Option<Id>, ids: set<Id>) {
    ref.None? || ref.value in ids
  }

  predicate PrimaryKeys(s: Store) {
    && KeysUnique(s.users) && KeysUnique(s.accounts) && KeysUnique(s.categories)
    && KeysUnique(s.transactions) && KeysUnique(s.shoppingPlans) && KeysUnique(s.shoppingItems)
    && KeysUnique(s.budgetPlans) && KeysUnique(s.budgetCategories)
  }

  /** Accounts, categories, shopping plans and budget plans each belong to an existing user. */
  predicate UserRefs(s: Store) {
    && (forall r | r in s.accounts :: r.val.userId in Ids(s.users))
    && (forall r | r in s.categories :: r.val.userId in Ids(s.users))
    && (forall r | r in s.shoppingPlans :: r.val.userId in Ids(s.users))
    && (forall r | r in s.budgetPlans :: r.val.userId in Ids(s.users))
  }

  predicate TransactionRefs(s: Store) {
    forall r | r in s.transactions ::
      && r.val.accountId in Ids(s.accounts)
      && RefIn(r.val.categoryId, Ids(s.categories))
      && RefIn(r.val.shoppingPlanId, Ids(s.shoppingPlans))
      && RefIn(r.val.budgetCategoryId, Ids(s.budgetCategories))
  }

  predicate ItemRefs(s: Store) {
    forall r | r in s.shoppingItems :: r.val.shoppingPlanId in Ids(s.shoppingPlans)
  }

  predicate BudgetCategoryRefs(s: Store) {
    forall r | r in s.budgetCategories :: r.val.budgetPlanId in Ids(s.budgetPlans)
  }

  // Column lengths

  /** The declared length of every name, title, description and user column. */
  const MaxLength: nat := 256

  /** A value a `varchar(256)` column accepts; Postgres refuses a longer one. */
  predicate Fits(x: string) {
    |x| <= MaxLength
  }

  predicate FitsOrNull(x: Option<string>) {
    x.None? || Fits(x.value)
  }

  /** Every `varchar(256)` value of every row fits its column. */
  predicate Lengths(s: Store) {
    && (forall r | r in s.users :: FitsOrNull(r.val.username) && FitsOrNull(r.val.email))
    && (forall r | r in s.accounts :: Fits(r.val.name))
    && (forall r | r in s.categories :: Fits(r.val.name))
    && (forall r | r in s.transactions :: Fits(r.val.description))
    && (forall r | r in s.shoppingPlans :: Fits(r.val.title))
    && (forall r | r in s.shoppingItems :: Fits(r.val.name))
    && (forall r | r in s.budgetPlans :: Fits(r.val.title))
    && (forall r | r in s.budgetCategories :: Fits(r.val.name))
  }

  /**
   * Every primary key is unique, every non-null foreign key names an
   * existing row, and every text value fits its column.
   */
  predicate Valid(s: Store) {
    PrimaryKeys(s) && UserRefs(s) && TransactionRefs(s) && ItemRefs(s) && BudgetCategoryRefs(s) && Lengths(s)
  }

  /** A transaction's signed amount: positive is income, negative is expense. */
  function Amount(t: Row<Transaction>): real { t.val.amount }

  // Deletion with the `onDelete` rules

  /** A `set null` reference: cleared when it names a deleted row, kept otherwise. */
  function Unlink(ref: Option<Id>, deleted: set<Id>): (r: Option<Id>)
    ensures r.None? || r.value !in deleted
    ensures ref.None? || ref.value !in deleted ==> r == ref
  {
    if ref.Some? && ref.value in deleted then None else ref
  }

  /** Deletes transactions; nothing references them. */
  function DeleteTransactionRows(s: Store, ids: set<Id>): (r: Store)
    ensures Ids(r.transactions) == Ids(s.transactions) - ids
    ensures forall x | x in s.transactions && x.id !in ids :: x in r.transactions
    ensures forall x | x in r.transactions :: x in s.transactions
    ensures r == s.(transactions := r.transactions)
    ensures ids == {} ==> r == s
  {
    s.(transactions := RemoveIds(s.transactions, ids))
  }

  /** Deletes accounts and, by `on delete cascade`, every transaction booked on them. */
  function DeleteAccountRows(s: Store, ids: set<Id>): (r: Store)
    ensures Ids(r.accounts) == Ids(s.accounts) - ids
    ensures forall x | x in s.accounts && x.id !in ids :: x in r.accounts
    ensures forall x | x in r.accounts :: x in s.accounts
    ensures forall x | x in r.transactions :: x in s.transactions && x.val.accountId !in ids
    ensures forall x | x in s.transactions && x.val.accountId !in ids :: x in r.transactions
    ensures KeysUnique(s.transactions) ==> KeysUnique(r.transactions)
    ensures r == s.(accounts := r.accounts, transactions := r.transactions)
  {
    var keep := (x: Row<Transaction>) => x.val.accountId !in ids;
    WhereKeysUnique(s.transactions, keep);
    s.(accounts := RemoveIds(s.accounts, ids), transactions := Where(s.transactions, keep))
  }

  /** Deletes categories; their transactions survive with `categoryId` set to NULL. */
  function DeleteCategoryRows(s: Store, ids: set<Id>): (r: Store)
    ensures Ids(r.categories) == Ids(s.categories) - ids
    ensures forall x | x in s.categories && x.id !in ids :: x in r.categories
    ensures forall x | x in r.categories :: x in s.categories
    ensures |r.transactions| == |s.transactions|
    ensures forall i | 0 <= i < |s.transactions| ::
              r.transactions[i] == Row(s.transactions[i].id,
                s.transactions[i].val.(categoryId := Unlink(s.transactions[i].val.categoryId, ids)))
    ensures r == s.(categories := r.categories, transactions := r.transactions)
  {
    var clear := (x: Row<Transaction>) => x.val.(categoryId := Unlink(x.val.categoryId, ids));
    MapValsKeys(s.transactions, clear);
    s.(categories := RemoveIds(s.categories, ids), transactions := MapVals(s.transactions, clear))
  }

  /** Deletes shopping items; nothing references them. */
  function DeleteShoppingItemRows(s: Store, ids: set<Id>): (r: Store)
    ensures Ids(r.shoppingItems) == Ids(s.shoppingItems) - ids
    ensures forall x | x in s.shoppingItems && x.id !in ids :: x in r.shoppingItems
    ensures forall x | x in r.shoppingItems :: x in s.shoppingItems
    ensures r == s.(shoppingItems := r.shoppingItems)
  {
    s.(shoppingItems := RemoveIds(s.shoppingItems, ids))
  }

  /**
   * Deletes shopping plans: their items go with them (`cascade`) and linked
   * transactions survive with `shoppingPlanId` set to NULL.
   */
  function DeleteShoppingPlanRows(s: Store, ids: set<Id>): (r: Store)
    ensures Ids(r.shoppingPlans) == Ids(s.shoppingPlans) - ids
    ensures forall x | x in s.shoppingPlans && x.id !in ids :: x in r.shoppingPlans
    ensures forall x | x in r.shoppingPlans :: x in s.shoppingPlans
    ensures forall x | x in r.shoppingItems :: x in s.shoppingItems && x.val.shoppingPlanId !in ids
    ensures forall x | x in s.shoppingItems && x.val.shoppingPlanId !in ids :: x in r.shoppingItems
    ensures KeysUnique(s.shoppingItems) ==> KeysUnique(r.shoppingItems)
    ensures |r.transactions| == |s.transactions|
    ensures forall i | 0 <= i < |s.transactions| ::
              r.transactions[i] == Row(s.transactions[i].id,
                s.transactions[i].val.(shoppingPlanId := Unlink(s.transactions[i].val.shoppingPlanId, ids)))
    ensures r == s.(shoppingPlans := r.shoppingPlans, shoppingItems := r.shoppingItems,
                    transactions := r.transactions)
  {
    var keep := (x: Row<ShoppingItem>) => x.val.shoppingPlanId !in ids;
    var clear := (x: Row<Transaction>) => x.val.(shoppingPlanId := Unlink(x.val.shoppingPlanId, ids));
    WhereKeysUnique(s.shoppingItems, keep);
    MapValsKeys(s.transactions, clear);
    s.(shoppingPlans := RemoveIds(s.shoppingPlans, ids),
       shoppingItems := Where(s.shoppingItems, keep),
       transactions := MapVals(s.transactions, clear))
  }

  /** Deletes budget categories; linked transactions survive with `budgetCategoryId` set to NULL. */
  function DeleteBudgetCategoryRows(s: Store, ids: set<Id>): (r: Store)
    ensures Ids(r.budgetCategories) == Ids(s.budgetCategories) - ids
    ensures forall x | x in s.budgetCategories && x.id !in ids :: x in r.budgetCategories
    ensures forall x | x in r.budgetCategories :: x in s.budgetCategories
    ensures |r.transactions| == |s.transactions|
    ensures forall i | 0 <= i < |s.transactions| ::
              r.transactions[i] == Row(s.transactions[i].id,
                s.transactions[i].val.(budgetCategoryId := Unlink(s.transactions[i].val.budgetCategoryId, ids)))
    ensures r == s.(budgetCategories := r.budgetCategories, transactions := r.transactions)
  {
    var clear := (x: Row<Transaction>) => x.val.(budgetCategoryId := Unlink(x.val.budgetCategoryId, ids));
    MapValsKeys(s.transactions, clear);
    s.(budgetCategories := RemoveIds(s.budgetCategories, ids), transactions := MapVals(s.transactions, clear))
  }

  /** The ids of the rows of a table whose value satisfies `p`. */
  function IdsWhere<T(==)>(t: Table<T>, p: T -> bool): (r: set<Id>)
    ensures forall x | x in t && p(x.val) :: x.id in r
    ensures r <= Ids(t)
  {
    set x | x in t && p(x.val) :: x.id
  }

  /** Under a unique primary key, a row's id is selected exactly when the row is. */
  lemma IdsWhereUnique<T>(t: Table<T>, p: T -> bool)
    requires KeysUnique(t)
    ensures forall x | x in t :: x.id in IdsWhere(t, p) <==> p(x.val)
  {
    forall x | x in t && x.id in IdsWhere(t, p) ensures p(x.val) {
      var y :| y in t && p(y.val) && y.id == x.id;
      var i :| 0 <= i < |t| && t[i] == x;
      var j :| 0 <= j < |t| && t[j] == y;
    }
  }

  /** The budget categories that belong to one of the given budget plans. */
  function CategoriesOfBudgetPlans(s: Store, plans: set<Id>): set<Id> {
    IdsWhere(s.budgetCategories, (c: BudgetCategory) => c.budgetPlanId in plans)
  }

  /**
   * Deletes budget plans: their budget categories go with them (`cascade`),
   * which in turn clears `budgetCategoryId` on the transactions linked to those.
   */
  function DeleteBudgetPlanRows(s: Store, ids: set<Id>): (r: Store)
    ensures Ids(r.budgetPlans) == Ids(s.budgetPlans) - ids
    ensures forall x | x in s.budgetPlans && x.id !in ids :: x in r.budgetPlans
    ensures forall x | x in r.budgetPlans :: x in s.budgetPlans
    ensures forall x | x in r.budgetCategories :: x in s.budgetCategories && x.val.budgetPlanId !in ids
    ensures forall x | x in s.budgetCategories && x.val.budgetPlanId !in ids :: x in r.budgetCategories
    ensures KeysUnique(s.budgetCategories) ==> KeysUnique(r.budgetCategories)
    ensures |r.transactions| == |s.transactions|
    ensures forall i | 0 <= i < |s.transactions| ::
              r.transactions[i] == Row(s.transactions[i].id,
                s.transactions[i].val.(budgetCategoryId :=
                  Unlink(s.transactions[i].val.budgetCategoryId, CategoriesOfBudgetPlans(s, ids))))
    ensures r == s.(budgetPlans := r.budgetPlans, budgetCategories := r.budgetCategories,
                    transactions := r.transactions)
  {
    var keep := (x: Row<BudgetCategory>) => x.val.budgetPlanId !in ids;
    var gone := CategoriesOfBudgetPlans(s, ids);
    var clear := (x: Row<Transaction>) => x.val.(budgetCategoryId := Unlink(x.val.budgetCategoryId, gone));
    WhereKeysUnique(s.budgetCategories, keep);
    s.(budgetPlans := RemoveIds(s.budgetPlans, ids),
       budgetCategories := Where(s.budgetCategories, keep),
       transactions := MapVals(s.transactions, clear))
  }

  // What belongs to the users being deleted

  function AccountsOfUsers(s: Store, users: set<Id>): set<Id> {
    IdsWhere(s.accounts, (a: Account) => a.userId in users)
  }

  function CategoriesOfUsers(s: Store, users: set<Id>): set<Id> {
    IdsWhere(s.categories, (c: Category) => c.userId in users)
  }

  function ShoppingPlansOfUsers(s: Store, users: set<Id>): set<Id> {
    IdsWhere(s.shoppingPlans, (p: ShoppingPlan) => p.userId in users)
  }

  function BudgetPlansOfUsers(s: Store, users: set<Id>): set<Id> {
    IdsWhere(s.budgetPlans, (p: BudgetPlan) => p.userId in users)
  }

  /**
   * A transaction that survives a user deletion (its account is someone
   * else's) with its references to the deleted users' categories, shopping
   * plans and budget categories set to NULL.
   */
  function Detached(s: Store, users: set<Id>, t: Transaction): Transaction {
    t.(categoryId := Unlink(t.categoryId, CategoriesOfUsers(s, users)),
       shoppingPlanId := Unlink(t.shoppingPlanId, ShoppingPlansOfUsers(s, users)),
       budgetCategoryId := Unlink(t.budgetCategoryId, CategoriesOfBudgetPlans(s, BudgetPlansOfUsers(s, users))))
  }

  /** The transactions on accounts that survive a user deletion, detached from the deleted rows. */
  function SurvivingTransactions(s: Store, ids: set<Id>): (r: Table<Transaction>)
    ensures forall x | x in r ::
              exists y | y in s.transactions :: y.val.accountId !in AccountsOfUsers(s, ids) &&
                x == Row(y.id, Detached(s, ids, y.val))
    ensures forall y | y in s.transactions && y.val.accountId !in AccountsOfUsers(s, ids) ::
              Row(y.id, Detached(s, ids, y.val)) in r
    ensures KeysUnique(s.transactions) ==> KeysUnique(r)
  {
    var accounts := AccountsOfUsers(s, ids);
    var onKept := (t: Row<Transaction>) => t.val.accountId !in accounts;
    var detach := (t: Row<Transaction>) => Detached(s, ids, t.val);
    var kept := Where(s.transactions, onKept);
    WhereKeysUnique(s.transactions, onKept);
    MapValsKeys(kept, detach);
    MapValsWhereCovers(s.transactions, onKept, detach);
    MapVals(kept, detach)
  }

  /**
   * Deletes users with everything they own: accounts (and so their
   * transactions), categories, shopping plans (and so their items) and budget
   * plans (and so their budget categories). Transactions on other users'
   * accounts survive, their references to deleted rows set to NULL.
   */
  function DeleteUserRows(s: Store, ids: set<Id>): (r: Store)
    ensures Ids(r.users) == Ids(s.users) - ids
    ensures forall x | x in s.users && x.id !in ids :: x in r.users
    ensures forall x | x in r.users :: x in s.users
    ensures forall x | x in r.accounts :: x in s.accounts && x.val.userId !in ids
    ensures forall x | x in s.accounts && x.val.userId !in ids :: x in r.accounts
    ensures forall x | x in r.categories :: x in s.categories && x.val.userId !in ids
    ensures forall x | x in s.categories && x.val.userId !in ids :: x in r.categories
    ensures forall x | x in r.shoppingPlans :: x in s.shoppingPlans && x.val.userId !in ids
    ensures forall x | x in s.shoppingPlans && x.val.userId !in ids :: x in r.shoppingPlans
    ensures forall x | x in r.budgetPlans :: x in s.budgetPlans && x.val.userId !in ids
    ensures forall x | x in s.budgetPlans && x.val.userId !in ids :: x in r.budgetPlans
    ensures forall x | x in r.shoppingItems ::
              x in s.shoppingItems && x.val.shoppingPlanId !in ShoppingPlansOfUsers(s, ids)
    ensures forall x | x in s.shoppingItems && x.val.shoppingPlanId !in ShoppingPlansOfUsers(s, ids) ::
              x in r.shoppingItems
    ensures forall x | x in r.budgetCategories ::
              x in s.budgetCategories && x.val.budgetPlanId !in BudgetPlansOfUsers(s, ids)
    ensures forall x | x in s.budgetCategories && x.val.budgetPlanId !in BudgetPlansOfUsers(s, ids) ::
              x in r.budgetCategories
    ensures forall x | x in r.transactions ::
              exists y | y in s.transactions :: y.val.accountId !in AccountsOfUsers(s, ids) &&
                x == Row(y.id, Detached(s, ids, y.val))
    ensures forall y | y in s.transactions && y.val.accountId !in AccountsOfUsers(s, ids) ::
              Row(y.id, Detached(s, ids, y.val)) in r.transactions
    ensures PrimaryKeys(s) ==> PrimaryKeys(r)
  {
    var plans := ShoppingPlansOfUsers(s, ids);
    var budgets := BudgetPlansOfUsers(s, ids);
    var keepAccount := (a: Row<Account>) => a.val.userId !in ids;
    var keepCategory := (c: Row<Category>) => c.val.userId !in ids;
    var keepPlan := (p: Row<ShoppingPlan>) => p.val.userId !in ids;
    var keepItem := (i: Row<ShoppingItem>) => i.val.shoppingPlanId !in plans;
    var keepBudget := (p: Row<BudgetPlan>) => p.val.userId !in ids;
    var keepBudgetCategory := (c: Row<BudgetCategory>) => c.val.budgetPlanId !in budgets;
    WhereKeysUnique(s.accounts, keepAccount);
    WhereKeysUnique(s.categories, keepCategory);
    WhereKeysUnique(s.shoppingPlans, keepPlan);
    WhereKeysUnique(s.shoppingItems, keepItem);
    WhereKeysUnique(s.budgetPlans, keepBudget);
    WhereKeysUnique(s.budgetCategories, keepBudgetCategory);
    Store(
      RemoveIds(s.users, ids),
      Where(s.accounts, keepAccount),
      Where(s.categories, keepCategory),
      SurvivingTransactions(s, ids),
      Where(s.shoppingPlans, keepPlan),
      Where(s.shoppingItems, keepItem),
      Where(s.budgetPlans, keepBudget),
      Where(s.budgetCategories, keepBudgetCategory))
  }

  // Every deletion keeps the store valid: the `onDelete` rules leave no dangling reference.

  lemma DeleteTransactionRowsValid(s: Store, ids: set<Id>)
    requires Valid(s)
    ensures Valid(DeleteTransactionRows(s, ids))
  {
  }

  lemma DeleteAccountRowsValid(s: Store, ids: set<Id>)
    requires Valid(s)
    ensures Valid(DeleteAccountRows(s, ids))
  {
  }

  lemma DeleteCategoryRowsValid(s: Store, ids: set<Id>)
    requires Valid(s)
    ensures Valid(DeleteCategoryRows(s, ids))
  {
    var r := DeleteCategoryRows(s, ids);
    forall x | x in r.transactions ensures RefIn(x.val.categoryId, Ids(r.categories)) && Fits(x.val.description) {
      var i :| 0 <= i < |r.transactions| && r.transactions[i] == x;
      assert s.transactions[i] in s.transactions;
    }
  }

  lemma DeleteShoppingItemRowsValid(s: Store, ids: set<Id>)
    requires Valid(s)
    ensures Valid(DeleteShoppingItemRows(s, ids))
  {
  }

  lemma DeleteShoppingPlanRowsValid(s: Store, ids: set<Id>)
    requires Valid(s)
    ensures Valid(DeleteShoppingPlanRows(s, ids))
  {
    var r := DeleteShoppingPlanRows(s, ids);
    forall x | x in r.transactions ensures RefIn(x.val.shoppingPlanId, Ids(r.shoppingPlans)) && Fits(x.val.description) {
      var i :| 0 <= i < |r.transactions| && r.transactions[i] == x;
      assert s.transactions[i] in s.transactions;
    }
  }

  lemma DeleteBudgetCategoryRowsValid(s: Store, ids: set<Id>)
    requires Valid(s)
    ensures Valid(DeleteBudgetCategoryRows(s, ids))
  {
    var r := DeleteBudgetCategoryRows(s, ids);
    forall x | x in r.transactions
      ensures RefIn(x.val.budgetCategoryId, Ids(r.budgetCategories)) && Fits(x.val.description)
    {
      var i :| 0 <= i < |r.transactions| && r.transactions[i] == x;
      assert s.transactions[i] in s.transactions;
    }
  }

  lemma DeleteBudgetPlanRowsValid(s: Store, ids: set<Id>)
    requires Valid(s)
    ensures Valid(DeleteBudgetPlanRows(s, ids))
  {
    var r := DeleteBudgetPlanRows(s, ids);
    MapValsKeys(s.transactions, (x: Row<Transaction>) =>
      x.val.(budgetCategoryId := Unlink(x.val.budgetCategoryId, CategoriesOfBudgetPlans(s, ids))));
    forall x | x in r.transactions
      ensures RefIn(x.val.budgetCategoryId, Ids(r.budgetCategories)) && Fits(x.val.description)
    {
      var i :| 0 <= i < |r.transactions| && r.transactions[i] == x;
      assert s.transactions[i] in s.transactions;
      if x.val.budgetCategoryId.Some? {
        var c :| c in s.budgetCategories && c.id == x.val.budgetCategoryId.value;
        assert c in r.budgetCategories;
      }
    }
  }

  lemma DeleteUserRowsValid(s: Store, ids: set<Id>)
    requires Valid(s)
    ensures Valid(DeleteUserRows(s, ids))
  {
    var r := DeleteUserRows(s, ids);
    DeleteUserRowsTransactionsValid(s, ids);
    forall x | x in r.shoppingItems ensures x.val.shoppingPlanId in Ids(r.shoppingPlans) {
      var p :| p in s.shoppingPlans && p.id == x.val.shoppingPlanId;
      assert p in r.shoppingPlans;
    }
    forall x | x in r.budgetCategories ensures x.val.budgetPlanId in Ids(r.budgetPlans) {
      var p :| p in s.budgetPlans && p.id == x.val.budgetPlanId;
      assert p in r.budgetPlans;
    }
  }

  /** The surviving transactions of a user deletion keep resolved references and fitting descriptions. */
  lemma DeleteUserRowsTransactionsValid(s: Store, ids: set<Id>)
    requires Valid(s)
    ensures TransactionRefs(DeleteUserRows(s, ids))
    ensures forall x | x in DeleteUserRows(s, ids).transactions :: Fits(x.val.description)
  {
    DeleteUserRowsOwnerRefs(s, ids);
    DeleteUserRowsPlanRefs(s, ids);
  }

  lemma DeleteUserRowsOwnerRefs(s: Store, ids: set<Id>)
    requires Valid(s)
    ensures forall x | x in DeleteUserRows(s, ids).transactions ::
              && x.val.accountId in Ids(DeleteUserRows(s, ids).accounts)
              && RefIn(x.val.categoryId, Ids(DeleteUserRows(s, ids).categories))
              && Fits(x.val.description)
  {
    var r := DeleteUserRows(s, ids);
    forall x | x in r.transactions
      ensures && x.val.accountId in Ids(r.accounts)
              && RefIn(x.val.categoryId, Ids(r.categories))
              && Fits(x.val.description)
    {
      var y :| y in s.transactions && y.val.accountId !in AccountsOfUsers(s, ids) && x == Row(y.id, Detached(s, ids, y.val));
      var a :| a in s.accounts && a.id == y.val.accountId;
      assert a in r.accounts;
      if x.val.categoryId.Some? {
        var c :| c in s.categories && c.id == x.val.categoryId.value;
        assert c in r.categories;
      }
    }
  }

  lemma DeleteUserRowsPlanRefs(s: Store, ids: set<Id>)
    requires Valid(s)
    ensures forall x | x in DeleteUserRows(s, ids).transactions ::
              && RefIn(x.val.shoppingPlanId, Ids(DeleteUserRows(s, ids).shoppingPlans))
              && RefIn(x.val.budgetCategoryId, Ids(DeleteUserRows(s, ids).budgetCategories))
  {
    var r := DeleteUserRows(s, ids);
    forall x | x in r.transactions
      ensures && RefIn(x.val.shoppingPlanId, Ids(r.shoppingPlans))
              && RefIn(x.val.budgetCategoryId, Ids(r.budgetCategories))
    {
      var y :| y in s.transactions && y.val.accountId !in AccountsOfUsers(s, ids) && x == Row(y.id, Detached(s, ids, y.val));
      if x.val.shoppingPlanId.Some? {
        var p :| p in s.shoppingPlans && p.id == x.val.shoppingPlanId.value;
        assert p in r.shoppingPlans;
      }
      if x.val.budgetCategoryId.Some? {
        var c :| c in s.budgetCategories && c.id == x.val.budgetCategoryId.value;
        assert c in r.budgetCategories;
      }
    }
  }

  // Replacing the value of one row (`update .. where id = $1`): under a
  // valid store the update is accepted exactly when the row's new
  // references resolve and its new text fits.

  lemma SetAccountValid(s: Store, id: Id, v: Account)
    requires Valid(s)
    ensures Valid(s.(accounts := SetVal(s.accounts, id, v))) <==>
            id !in Ids(s.accounts) || (v.userId in Ids(s.users) && Fits(v.name))
  {
    if id in Ids(s.accounts) {
      var r := SetVal(s.accounts, id, v);
      var i :| 0 <= i < |s.accounts| && s.accounts[i].id == id;
      assert r[i] == Row(id, v);
      if v.userId in Ids(s.users) && Fits(v.name) {
        forall x | x in r ensures x.val.userId in Ids(s.users) && Fits(x.val.name) {
          if x.id != id {
            assert x in s.accounts;
          } else {
            var j :| 0 <= j < |r| && r[j] == x;
          }
        }
      }
    } else {
      assert forall x | x in SetVal(s.accounts, id, v) :: x in s.accounts;
    }
  }

  lemma SetCategoryValid(s: Store, id: Id, v: Category)
    requires Valid(s)
    ensures Valid(s.(categories := SetVal(s.categories, id, v))) <==>
            id !in Ids(s.categories) || (v.userId in Ids(s.users) && Fits(v.name))
  {
    if id in Ids(s.categories) {
      var r := SetVal(s.categories, id, v);
      var i :| 0 <= i < |s.categories| && s.categories[i].id == id;
      assert r[i] == Row(id, v);
      if v.userId in Ids(s.users) && Fits(v.name) {
        forall x | x in r ensures x.val.userId in Ids(s.users) && Fits(x.val.name) {
          if x.id != id {
            assert x in s.categories;
          } else {
            var j :| 0 <= j < |r| && r[j] == x;
          }
        }
      }
    } else {
      assert forall x | x in SetVal(s.categories, id, v) :: x in s.categories;
    }
  }

  lemma SetShoppingPlanValid(s: Store, id: Id, v: ShoppingPlan)
    requires Valid(s)
    ensures Valid(s.(shoppingPlans := SetVal(s.shoppingPlans, id, v))) <==>
            id !in Ids(s.shoppingPlans) || (v.userId in Ids(s.users) && Fits(v.title))
  {
    if id in Ids(s.shoppingPlans) {
      var r := SetVal(s.shoppingPlans, id, v);
      var i :| 0 <= i < |s.shoppingPlans| && s.shoppingPlans[i].id == id;
      assert r[i] == Row(id, v);
      if v.userId in Ids(s.users) && Fits(v.title) {
        forall x | x in r ensures x.val.userId in Ids(s.users) && Fits(x.val.title) {
          if x.id != id {
            assert x in s.shoppingPlans;
          } else {
            var j :| 0 <= j < |r| && r[j] == x;
          }
        }
      }
    } else {
      assert forall x | x in SetVal(s.shoppingPlans, id, v) :: x in s.shoppingPlans;
    }
  }

  lemma SetShoppingItemValid(s: Store, id: Id, v: ShoppingItem)
    requires Valid(s)
    ensures Valid(s.(shoppingItems := SetVal(s.shoppingItems, id, v))) <==>
            id !in Ids(s.shoppingItems) || (v.shoppingPlanId in Ids(s.shoppingPlans) && Fits(v.name))
  {
    if id in Ids(s.shoppingItems) {
      var r := SetVal(s.shoppingItems, id, v);
      var i :| 0 <= i < |s.shoppingItems| && s.shoppingItems[i].id == id;
      assert r[i] == Row(id, v);
      if v.shoppingPlanId in Ids(s.shoppingPlans) && Fits(v.name) {
        forall x | x in r ensures x.val.shoppingPlanId in Ids(s.shoppingPlans) && Fits(x.val.name) {
          if x.id != id {
            assert x in s.shoppingItems;
          } else {
            var j :| 0 <= j < |r| && r[j] == x;
          }
        }
      }
    } else {
      assert forall x | x in SetVal(s.shoppingItems, id, v) :: x in s.shoppingItems;
    }
  }

  lemma SetBudgetPlanValid(s: Store, id: Id, v: BudgetPlan)
    requires Valid(s)
    ensures Valid(s.(budgetPlans := SetVal(s.budgetPlans, id, v))) <==>
            id !in Ids(s.budgetPlans) || (v.userId in Ids(s.users) && Fits(v.title))
  {
    if id in Ids(s.budgetPlans) {
      var r := SetVal(s.budgetPlans, id, v);
      var i :| 0 <= i < |s.budgetPlans| && s.budgetPlans[i].id == id;
      assert r[i] == Row(id, v);
      if v.userId in Ids(s.users) && Fits(v.title) {
        forall x | x in r ensures x.val.userId in Ids(s.users) && Fits(x.val.title) {
          if x.id != id {
            assert x in s.budgetPlans;
          } else {
            var j :| 0 <= j < |r| && r[j] == x;
          }
        }
      }
    } else {
      assert forall x | x in SetVal(s.budgetPlans, id, v) :: x in s.budgetPlans;
    }
  }

  lemma SetBudgetCategoryValid(s: Store, id: Id, v: BudgetCategory)
    requires Valid(s)
    ensures Valid(s.(budgetCategories := SetVal(s.budgetCategories, id, v))) <==>
            id !in Ids(s.budgetCategories) || (v.budgetPlanId in Ids(s.budgetPlans) && Fits(v.name))
  {
    if id in Ids(s.budgetCategories) {
      var r := SetVal(s.budgetCategories, id, v);
      var i :| 0 <= i < |s.budgetCategories| && s.budgetCategories[i].id == id;
      assert r[i] == Row(id, v);
      if v.budgetPlanId in Ids(s.budgetPlans) && Fits(v.name) {
        forall x | x in r ensures x.val.budgetPlanId in Ids(s.budgetPlans) && Fits(x.val.name) {
          if x.id != id {
            assert x in s.budgetCategories;
          } else {
            var j :| 0 <= j < |r| && r[j] == x;
          }
        }
      }
    } else {
      assert forall x | x in SetVal(s.budgetCategories, id, v) :: x in s.budgetCategories;
    }
  }
}

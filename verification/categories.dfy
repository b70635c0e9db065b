/**
 * The category server functions: list with per-category transaction count
 * and total, fetch one, create, rename and delete, each restricted to the
 * signed-in user's categories.
 */
module Categories {
  import opened Wrappers
  import opened Tables
  import opened Schema
  import opened Access

  /** The validated category form. */
  datatype CategoryForm = CategoryForm(name: string)

  /** A row of the category list. */
  datatype CategorySummary = CategorySummary(id: Id, name: string, count: nat, total: real)

  /** Selects the transactions filed under a category (`categoryId` is nullable). */
  function InCategory(category: Option<Id>): Row<Transaction> -> bool {
    (t: Row<Transaction>) => t.val.categoryId == category
  }

  /** The transactions filed under a category. */
  function TransactionsOf(s: Store, category: Id): Table<Transaction> {
    Where(s.transactions, InCategory(Some(category)))
  }

  /** The list row of a category: the left join with its grouped transactions, coalesced to 0. */
  function Summarize(s: Store, c: Row<Category>): CategorySummary {
    var txs := TransactionsOf(s, c.id);
    CategorySummary(c.id, c.val.name, |txs|, Sum(txs, Amount))
  }

  function OwnedCategories(s: Store, user: Id): Table<Category> {
    Where(s.categories, (c: Row<Category>) => c.val.userId == user)
  }

  /** The list rows, one per owned category, in table order. */
  function CategoryRows(s: Store, user: Id): seq<CategorySummary> {
    Project(OwnedCategories(s, user), (c: Row<Category>) => Summarize(s, c))
  }

  lemma CategoryRowsSound(s: Store, user: Id)
    ensures forall x | x in CategoryRows(s, user) ::
              exists c | c in s.categories :: c.val.userId == user && x == Summarize(s, c)
  {
    var owned := OwnedCategories(s, user);
    var r := CategoryRows(s, user);
    forall x | x in r ensures exists c | c in s.categories :: c.val.userId == user && x == Summarize(s, c) {
      var i :| 0 <= i < |r| && r[i] == x;
      assert owned[i] in s.categories;
    }
  }

  lemma CategoryRowsCover(s: Store, user: Id)
    ensures forall i | 0 <= i < |s.categories| && s.categories[i].val.userId == user ::
              exists x | x in CategoryRows(s, user) :: x.id == s.categories[i].id
  {
    var owned := OwnedCategories(s, user);
    var r := CategoryRows(s, user);
    forall i | 0 <= i < |s.categories| && s.categories[i].val.userId == user
      ensures exists x | x in r :: x.id == s.categories[i].id
    {
      var j :| 0 <= j < |owned| && owned[j] == s.categories[i];
      assert r[j].id == s.categories[i].id;
    }
  }

  lemma CategoryRowsQuiet(s: Store, user: Id)
    ensures forall x | x in CategoryRows(s, user) && (forall t | t in s.transactions :: t.val.categoryId != Some(x.id)) ::
              x.count == 0 && x.total == 0.0
  {
    forall x | x in CategoryRows(s, user) && (forall t | t in s.transactions :: t.val.categoryId != Some(x.id))
      ensures x.count == 0 && x.total == 0.0
    {
      WhereEmpty(s.transactions, InCategory(Some(x.id)));
    }
  }

  /** `getCategories`: one row per category of the caller, with its transaction count and total. */
  function GetCategories(s: Store, session: Session): (r: Result<seq<CategorySummary>>)
    ensures session.None? ==> r == Err(Unauthorized)
    ensures session.Some? ==> r.Ok? && |r.value| == |OwnedCategories(s, session.value)|
    ensures session.Some? ==>
              forall x | x in r.value :: exists c | c in s.categories ::
                c.val.userId == session.value && c.id == x.id && x.name == c.val.name
    ensures session.Some? ==>
              forall i | 0 <= i < |s.categories| && s.categories[i].val.userId == session.value ::
                exists x | x in r.value :: x.id == s.categories[i].id
    ensures session.Some? ==>
              forall x | x in r.value ::
                x.count == |TransactionsOf(s, x.id)| && x.total == Sum(TransactionsOf(s, x.id), Amount)
    ensures session.Some? ==>
              forall x | x in r.value && (forall t | t in s.transactions :: t.val.categoryId != Some(x.id)) ::
                x.count == 0 && x.total == 0.0
  {
    match session
    case None => Err(Unauthorized)
    case Some(u) =>
      CategoryRowsSound(s, u);
      CategoryRowsCover(s, u);
      CategoryRowsQuiet(s, u);
      Ok(CategoryRows(s, u))
  }

  /** `getCategory`: the caller's category with the given id, at most one row. */
  function GetCategory(s: Store, session: Session, id: Id): (r: Result<Table<Category>>)
    ensures session.None? ==> r == Err(Unauthorized)
    ensures session.Some? ==> r.Ok? && |r.value| <= 1
    ensures session.Some? ==> forall x | x in r.value :: x in s.categories && x.id == id && x.val.userId == session.value
    ensures session.Some? && KeysUnique(s.categories) ==> (r.value != [] <==> OwnsCategory(s, session.value, id))
  {
    match session
    case None => Err(Unauthorized)
    case Some(u) => Ok(SelectById(s.categories, id, (c: Category) => c.userId == u))
  }

  /** `createCategory`: inserts a category of the caller. */
  function CreateCategory(s: Store, session: Session, id: Id, now: int, form: CategoryForm): (o: Outcome<Row<Category>>)
    ensures session.None? ==> o == Outcome(Err(Unauthorized), s)
    ensures !o.result.Ok? ==> o.store == s
    ensures o.result.Ok? ==>
              && session.Some?
              && o.result.value == [Row(id, Category(form.name, session.value, now))]
              && o.store == s.(categories := s.categories + o.result.value)
              && Valid(o.store)
  {
    match session
    case None => Outcome(Err(Unauthorized), s)
    case Some(u) =>
      var row := Row(id, Category(form.name, u, now));
      Commit(s, s.(categories := s.categories + [row]), [row])
  }

  /**
   * The insert is accepted exactly when the id is new, the caller exists as
   * a user and the name fits its `varchar(256)` column.
   */
  lemma CreateCategoryAccepted(s: Store, user: Id, id: Id, now: int, form: CategoryForm)
    requires Valid(s)
    ensures CreateCategory(s, Some(user), id, now, form).result.Ok? <==>
            id !in Ids(s.categories) && user in Ids(s.users) && Fits(form.name)
  {
    var row := Row(id, Category(form.name, user, now));
    var next := s.(categories := s.categories + [row]);
    AppendRow(s.categories, row.id, row.val);
    assert row in next.categories;
    if id !in Ids(s.categories) && user in Ids(s.users) && Fits(form.name) {
      forall c | c in next.categories ensures c.val.userId in Ids(next.users) && Fits(c.val.name) {
        if c != row {
          assert c in s.categories;
        }
      }
      assert Valid(next);
    }
  }

  /** `updateCategory`: renames the caller's category; only the one row changes. */
  function UpdateCategory(s: Store, session: Session, id: Id, form: CategoryForm): (o: Outcome<Row<Category>>)
    ensures session.None? ==> o == Outcome(Err(Unauthorized), s)
    ensures session.Some? && !OwnsCategory(s, session.value, id) ==> o == Outcome(Ok([]), s)
    ensures !o.result.Ok? ==> o.store == s
    ensures o.result.Ok? && session.Some? && OwnsCategory(s, session.value, id) ==>
              var v := Get(s.categories, id).value.(name := form.name);
              && o.result.value == [Row(id, v)]
              && o.store == s.(categories := o.store.categories)
              && Ids(o.store.categories) == Ids(s.categories)
              && (forall x | x in s.categories && x.id != id :: x in o.store.categories)
              && (forall x | x in o.store.categories && x.id != id :: x in s.categories)
              && (KeysUnique(s.categories) ==> Get(o.store.categories, id) == Some(v))
              && Valid(o.store)
  {
    match session
    case None => Outcome(Err(Unauthorized), s)
    case Some(u) =>
      if OwnsCategory(s, u, id) then
        var v := Get(s.categories, id).value.(name := form.name);
        SetValGet(s.categories, id, v, id);
        Commit(s, s.(categories := SetVal(s.categories, id, v)), [Row(id, v)])
      else
        Outcome(Ok([]), s)
  }

  /** A rename of the caller's category is accepted exactly when the new name fits its column. */
  lemma UpdateCategoryAccepted(s: Store, user: Id, id: Id, form: CategoryForm)
    requires Valid(s)
    requires OwnsCategory(s, user, id)
    ensures UpdateCategory(s, Some(user), id, form).result.Ok? <==> Fits(form.name)
  {
    var before := Get(s.categories, id).value;
    assert Row(id, before) in s.categories;
    SetCategoryValid(s, id, before.(name := form.name));
  }

  lemma UpdateCategoryValid(s: Store, session: Session, id: Id, form: CategoryForm)
    requires Valid(s)
    ensures Valid(UpdateCategory(s, session, id, form).store)
  {
  }

  /** `deleteCategory`: deletes the caller's category; its transactions stay, uncategorised. */
  function DeleteCategory(s: Store, session: Session, id: Id): (o: Outcome<Row<Category>>)
    ensures session.None? ==> o == Outcome(Err(Unauthorized), s)
    ensures session.Some? && !OwnsCategory(s, session.value, id) ==> o == Outcome(Ok([]), s)
    ensures session.Some? && OwnsCategory(s, session.value, id) ==>
              && o.result.Ok?
              && o.result.value == [Row(id, Get(s.categories, id).value)]
              && Ids(o.store.categories) == Ids(s.categories) - {id}
              && (forall x | x in s.categories && x.id != id :: x in o.store.categories)
              && (forall x | x in o.store.categories :: x in s.categories)
              && Ids(o.store.transactions) == Ids(s.transactions)
              && |o.store.transactions| == |s.transactions|
              && (forall i | 0 <= i < |s.transactions| ::
                    o.store.transactions[i] == Row(s.transactions[i].id,
                      s.transactions[i].val.(categoryId := Unlink(s.transactions[i].val.categoryId, {id}))))
              && (forall t | t in o.store.transactions :: t.val.categoryId != Some(id))
              && (forall t | t in s.transactions && t.val.categoryId != Some(id) :: t in o.store.transactions)
              && o.store == s.(categories := o.store.categories, transactions := o.store.transactions)
  {
    match session
    case None => Outcome(Err(Unauthorized), s)
    case Some(u) =>
      if OwnsCategory(s, u, id) then
        var next := DeleteCategoryRows(s, {id});
        DeleteCategoryRowsUnlinks(s, id);
        Outcome(Ok([Row(id, Get(s.categories, id).value)]), next)
      else
        Outcome(Ok([]), s)
  }

  /** Deleting a category unlinks exactly its transactions and keeps every transaction. */
  lemma DeleteCategoryRowsUnlinks(s: Store, id: Id)
    ensures var next := DeleteCategoryRows(s, {id});
            && Ids(next.transactions) == Ids(s.transactions)
            && (forall t | t in next.transactions :: t.val.categoryId != Some(id))
            && (forall t | t in s.transactions && t.val.categoryId != Some(id) :: t in next.transactions)
  {
    var next := DeleteCategoryRows(s, {id});
    MapValsKeys(s.transactions, (x: Row<Transaction>) => x.val.(categoryId := Unlink(x.val.categoryId, {id})));
    forall t | t in s.transactions && t.val.categoryId != Some(id) ensures t in next.transactions {
      var i :| 0 <= i < |s.transactions| && s.transactions[i] == t;
      assert next.transactions[i] == t;
    }
    forall t | t in next.transactions ensures t.val.categoryId != Some(id) {
      var i :| 0 <= i < |next.transactions| && next.transactions[i] == t;
    }
  }

  lemma DeleteCategoryValid(s: Store, session: Session, id: Id)
    requires Valid(s)
    ensures Valid(DeleteCategory(s, session, id).store)
  {
    DeleteCategoryRowsValid(s, {id});
  }

  /** The category keys of the caller's categories, as the nullable column holds them. */
  function CategoryKeys(s: Store, user: Id): (r: seq<Option<Id>>)
    requires KeysUnique(s.categories)
    ensures NoDup(r)
    ensures forall t | t in s.transactions ::
              (t.val.categoryId in r) == (t.val.categoryId.Some? && OwnsCategory(s, user, t.val.categoryId.value))
  {
    WhereKeysUnique(s.categories, (c: Row<Category>) => c.val.userId == user);
    OwnedKeys(s, user);
    Project(Keys(OwnedCategories(s, user)), (k: Id) => Some(k))
  }

  /** A nullable key is among the caller's category keys exactly when it names a category of the caller's. */
  lemma OwnedKeys(s: Store, user: Id)
    requires KeysUnique(s.categories)
    ensures forall k: Option<Id> :: k in Project(Keys(OwnedCategories(s, user)), (k: Id) => Some(k)) <==>
              k.Some? && OwnsCategory(s, user, k.value)
  {
    var categories := OwnedCategories(s, user);
    var r := Project(Keys(categories), (k: Id) => Some(k));
    forall k: Option<Id> ensures k in r <==> k.Some? && OwnsCategory(s, user, k.value) {
      if k in r {
        var i :| 0 <= i < |r| && r[i] == k;
        GetRow(s.categories, categories[i]);
      }
      if k.Some? && OwnsCategory(s, user, k.value) {
        var c := Get(s.categories, k.value).value;
        WhereMember(s.categories, (c: Row<Category>) => c.val.userId == user);
        var i :| 0 <= i < |categories| && categories[i] == Row(k.value, c);
        assert r[i] == k;
      }
    }
  }

  /**
   * The per-category totals of the list add up to the net amount of the
   * transactions filed under one of the caller's categories.
   */
  lemma CategoryTotalsAddUp(s: Store, user: Id)
    requires KeysUnique(s.categories)
    ensures GetCategories(s, Some(user)).Ok?
    ensures Sum(GetCategories(s, Some(user)).value, (x: CategorySummary) => x.total)
            == Sum(Where(s.transactions, (t: Row<Transaction>) =>
                         t.val.categoryId.Some? && OwnsCategory(s, user, t.val.categoryId.value)), Amount)
  {
    var categories := OwnedCategories(s, user);
    var keys := CategoryKeys(s, user);
    var inKeys := (t: Row<Transaction>) => t.val.categoryId in keys;
    var g := (k: Option<Id>) => Sum(Where(s.transactions, InCategory(k)), Amount);
    SumProject(categories, (c: Row<Category>) => Summarize(s, c), (x: CategorySummary) => x.total,
               (c: Row<Category>) => g(Some(c.id)));
    SumProject(Keys(categories), (k: Id) => Some(k), g, (k: Id) => g(Some(k)));
    SumKeys(categories, (k: Id) => g(Some(k)), (c: Row<Category>) => g(Some(c.id)));
    SumByKeys(keys, s.transactions, (t: Row<Transaction>) => t.val.categoryId, InCategory, inKeys, Amount, g);
    WhereCongruent(s.transactions, inKeys, (t: Row<Transaction>) =>
                   t.val.categoryId.Some? && OwnsCategory(s, user, t.val.categoryId.value));
  }

  /** The per-category counts of the list add up to the number of those transactions. */
  lemma CategoryCountsAddUp(s: Store, user: Id)
    requires KeysUnique(s.categories)
    ensures GetCategories(s, Some(user)).Ok?
    ensures Sum(GetCategories(s, Some(user)).value, (x: CategorySummary) => x.count as real)
            == |Where(s.transactions, (t: Row<Transaction>) =>
                      t.val.categoryId.Some? && OwnsCategory(s, user, t.val.categoryId.value))| as real
  {
    var categories := OwnedCategories(s, user);
    var keys := CategoryKeys(s, user);
    var inKeys := (t: Row<Transaction>) => t.val.categoryId in keys;
    var one := (t: Row<Transaction>) => 1.0;
    var g := (k: Option<Id>) => Sum(Where(s.transactions, InCategory(k)), one);
    forall k ensures g(k) == |Where(s.transactions, InCategory(k))| as real {
      SumOnes(Where(s.transactions, InCategory(k)), one);
    }
    SumProject(categories, (c: Row<Category>) => Summarize(s, c), (x: CategorySummary) => x.count as real,
               (c: Row<Category>) => g(Some(c.id)));
    SumProject(Keys(categories), (k: Id) => Some(k), g, (k: Id) => g(Some(k)));
    SumKeys(categories, (k: Id) => g(Some(k)), (c: Row<Category>) => g(Some(c.id)));
    SumByKeys(keys, s.transactions, (t: Row<Transaction>) => t.val.categoryId, InCategory, inKeys, one, g);
    WhereCongruent(s.transactions, inKeys, (t: Row<Transaction>) =>
                   t.val.categoryId.Some? && OwnsCategory(s, user, t.val.categoryId.value));
    SumOnes(Where(s.transactions, inKeys), one);
  }
}

/**
 * The shopping-item server functions: the items of one shopping plan, fetch
 * one, create, update and delete. An item belongs to whoever owns its plan;
 * every write stores the item's total as computed from its other columns.
 */
module ShoppingItems {
  import opened Wrappers
  import opened Tables
  import opened Schema
  import opened Access
  import opened ShoppingPlans
  import Utils

  /** The validated shopping-item form; its numbers are stored as given, not in miliunits. */
  datatype ItemForm = ItemForm(name: string, amount: real, quantity: int, discount: real, tax: real)

  /** The total a shopping item's columns call for. */
  function TotalOf(i: ShoppingItem): real {
    Utils.CalculateTotal(i.amount, i.quantity, i.discount, i.tax)
  }

  /** Every stored item's total agrees with its amount, quantity, discount and tax. */
  predicate TotalsConsistent(s: Store) {
    forall i | i in s.shoppingItems :: i.val.total == TotalOf(i.val)
  }

  /** An item inserted with only its plan has a consistent total. */
  lemma DefaultShoppingItemConsistent(plan: Id, now: int)
    ensures TotalOf(DefaultShoppingItem(plan, now)) == DefaultShoppingItem(plan, now).total
  {
  }

  /** The row an insert writes: the form's columns, their total, the given plan. */
  function NewItem(plan: Id, now: int, form: ItemForm): (i: ShoppingItem)
    ensures i.total == TotalOf(i)
    ensures i.name == form.name && i.amount == form.amount && i.quantity == form.quantity
    ensures i.discount == form.discount && i.tax == form.tax && i.shoppingPlanId == plan
  {
    ShoppingItem(form.name, form.amount, form.quantity, form.discount, form.tax,
      Utils.CalculateTotal(form.amount, form.quantity, form.discount, form.tax), plan, now)
  }

  /** An existing item with the form's columns and their total. */
  function Revised(i: ShoppingItem, form: ItemForm): (r: ShoppingItem)
    ensures r.total == TotalOf(r)
    ensures r == NewItem(i.shoppingPlanId, i.createdAt, form)
  {
    i.(name := form.name, amount := form.amount, quantity := form.quantity, discount := form.discount,
       tax := form.tax, total := Utils.CalculateTotal(form.amount, form.quantity, form.discount, form.tax))
  }

  /**
   * `getShoppingPlanItems`: the items of the caller's plan with the given id;
   * nothing when the plan is not the caller's.
   */
  function GetShoppingPlanItems(s: Store, session: Session, plan: Id): (r: Result<Table<ShoppingItem>>)
    ensures session.None? ==> r == Err(Unauthorized)
    ensures session.Some? ==> r.Ok?
    ensures session.Some? && !OwnsShoppingPlan(s, session.value, plan) ==> r.value == []
    ensures session.Some? ==>
              forall i | i in r.value :: i in s.shoppingItems && i.val.shoppingPlanId == plan
    ensures session.Some? && OwnsShoppingPlan(s, session.value, plan) ==>
              forall i | i in s.shoppingItems && i.val.shoppingPlanId == plan :: i in r.value
    ensures session.Some? && OwnsShoppingPlan(s, session.value, plan) ==>
              |r.value| == |Where(s.shoppingItems, OfPlan(plan))|
    ensures session.Some? && KeysUnique(s.shoppingItems) ==> KeysUnique(r.value)
  {
    match session
    case None => Err(Unauthorized)
    case Some(u) =>
      WhereWithin(s.shoppingItems, OfPlan(plan));
      WhereMember(s.shoppingItems, OfPlan(plan));
      WhereKeysUnique(s.shoppingItems, OfPlan(plan));
      if OwnsShoppingPlan(s, u, plan) then Ok(ItemsOf(s, plan)) else Ok([])
  }

  /** `getShoppingPlanItem`: the item with the given id when its plan is the caller's. */
  function GetShoppingPlanItem(s: Store, session: Session, id: Id): (r: Result<Table<ShoppingItem>>)
    ensures session.None? ==> r == Err(Unauthorized)
    ensures session.Some? ==> r.Ok? && |r.value| <= 1
    ensures session.Some? ==>
              forall i | i in r.value :: i in s.shoppingItems && i.id == id &&
                OwnsShoppingPlan(s, session.value, i.val.shoppingPlanId)
    ensures session.Some? && KeysUnique(s.shoppingItems) ==>
              (r.value != [] <==> OwnsShoppingItem(s, session.value, id))
  {
    match session
    case None => Err(Unauthorized)
    case Some(u) => Ok(SelectById(s.shoppingItems, id, (i: ShoppingItem) => OwnsShoppingPlan(s, u, i.shoppingPlanId)))
  }

  /**
   * `createShoppingPlanItem`: inserts an item into the plan with the given
   * id, with its computed total. Whose plan it is goes unchecked.
   */
  function CreateShoppingPlanItem(s: Store, session: Session, plan: Id, id: Id, now: int, form: ItemForm)
    : (o: Outcome<Row<ShoppingItem>>)
    ensures session.None? ==> o == Outcome(Err(Unauthorized), s)
    ensures !o.result.Ok? ==> o.store == s
    ensures o.result.Ok? ==>
              && o.result.value == [Row(id, NewItem(plan, now, form))]
              && o.store == s.(shoppingItems := s.shoppingItems + o.result.value)
              && Valid(o.store)
  {
    match session
    case None => Outcome(Err(Unauthorized), s)
    case Some(_) =>
      var row := Row(id, NewItem(plan, now, form));
      Commit(s, s.(shoppingItems := s.shoppingItems + [row]), [row])
  }

  /**
   * The insert is accepted exactly when the id is new, the plan exists,
   * whoever owns it, and the name fits its `varchar(256)` column.
   */
  lemma CreateShoppingPlanItemAccepted(s: Store, user: Id, plan: Id, id: Id, now: int, form: ItemForm)
    requires Valid(s)
    ensures CreateShoppingPlanItem(s, Some(user), plan, id, now, form).result.Ok? <==>
            id !in Ids(s.shoppingItems) && plan in Ids(s.shoppingPlans) && Fits(form.name)
  {
    var row := Row(id, NewItem(plan, now, form));
    var next := s.(shoppingItems := s.shoppingItems + [row]);
    AppendRow(s.shoppingItems, row.id, row.val);
    assert row in next.shoppingItems;
    if id !in Ids(s.shoppingItems) && plan in Ids(s.shoppingPlans) && Fits(form.name) {
      forall i | i in next.shoppingItems ensures i.val.shoppingPlanId in Ids(next.shoppingPlans) && Fits(i.val.name) {
        if i != row {
          assert i in s.shoppingItems;
        }
      }
      assert Valid(next);
    }
  }

  /**
   * An accepted insert adds one item to its plan and the item's total to the
   * plan's total, as the plan summary reports them; other plans are unaffected.
   */
  lemma CreateShoppingPlanItemAddsToPlan(s: Store, session: Session, plan: Id, id: Id, now: int, form: ItemForm, other: Id)
    requires CreateShoppingPlanItem(s, session, plan, id, now, form).result.Ok?
    ensures var next := CreateShoppingPlanItem(s, session, plan, id, now, form).store;
            && |ItemsOf(next, plan)| == |ItemsOf(s, plan)| + 1
            && Sum(ItemsOf(next, plan), ItemTotal) == Sum(ItemsOf(s, plan), ItemTotal) + TotalOf(NewItem(plan, now, form))
            && (other != plan ==> ItemsOf(next, other) == ItemsOf(s, other))
  {
    var row := Row(id, NewItem(plan, now, form));
    WhereAppend(s.shoppingItems, row, OfPlan(plan));
    WhereAppend(s.shoppingItems, row, OfPlan(other));
    SumAppend(ItemsOf(s, plan), row, ItemTotal);
  }

  lemma CreateShoppingPlanItemKeepsTotals(s: Store, session: Session, plan: Id, id: Id, now: int, form: ItemForm)
    requires TotalsConsistent(s)
    ensures TotalsConsistent(CreateShoppingPlanItem(s, session, plan, id, now, form).store)
  {
  }

  /**
   * `updateShoppingPlanItem`: overwrites an item of the caller's with the
   * form and the recomputed total; only the one row changes.
   */
  function UpdateShoppingPlanItem(s: Store, session: Session, id: Id, form: ItemForm)
    : (o: Outcome<Row<ShoppingItem>>)
    ensures session.None? ==> o == Outcome(Err(Unauthorized), s)
    ensures session.Some? && !OwnsShoppingItem(s, session.value, id) ==> o == Outcome(Ok([]), s)
    ensures !o.result.Ok? ==> o.store == s
    ensures o.result.Ok? && session.Some? && OwnsShoppingItem(s, session.value, id) ==>
              var before := Get(s.shoppingItems, id).value;
              var v := NewItem(before.shoppingPlanId, before.createdAt, form);
              && o.result == Ok([Row(id, v)])
              && o.store == s.(shoppingItems := o.store.shoppingItems)
              && Ids(o.store.shoppingItems) == Ids(s.shoppingItems)
              && (forall i | i in s.shoppingItems && i.id != id :: i in o.store.shoppingItems)
              && (forall i | i in o.store.shoppingItems && i.id != id :: i in s.shoppingItems)
              && (KeysUnique(s.shoppingItems) ==> Get(o.store.shoppingItems, id) == Some(v))
              && Valid(o.store)
  {
    match session
    case None => Outcome(Err(Unauthorized), s)
    case Some(u) =>
      if OwnsShoppingItem(s, u, id) then
        var v := Revised(Get(s.shoppingItems, id).value, form);
        SetValGet(s.shoppingItems, id, v, id);
        Commit(s, s.(shoppingItems := SetVal(s.shoppingItems, id, v)), [Row(id, v)])
      else
        Outcome(Ok([]), s)
  }

  /** An update of the caller's item is accepted exactly when the new name fits its column. */
  lemma UpdateShoppingPlanItemAccepted(s: Store, user: Id, id: Id, form: ItemForm)
    requires Valid(s)
    requires OwnsShoppingItem(s, user, id)
    ensures UpdateShoppingPlanItem(s, Some(user), id, form).result.Ok? <==> Fits(form.name)
  {
    var before := Get(s.shoppingItems, id).value;
    assert Row(id, before) in s.shoppingItems;
    SetShoppingItemValid(s, id, Revised(before, form));
  }

  lemma UpdateShoppingPlanItemValid(s: Store, session: Session, id: Id, form: ItemForm)
    requires Valid(s)
    ensures Valid(UpdateShoppingPlanItem(s, session, id, form).store)
  {
  }

  lemma UpdateShoppingPlanItemKeepsTotals(s: Store, session: Session, id: Id, form: ItemForm)
    requires TotalsConsistent(s)
    ensures TotalsConsistent(UpdateShoppingPlanItem(s, session, id, form).store)
  {
    var o := UpdateShoppingPlanItem(s, session, id, form);
    if session.Some? && OwnsShoppingItem(s, session.value, id) && o.result.Ok? {
      forall i | i in o.store.shoppingItems ensures i.val.total == TotalOf(i.val) {
        if i.id != id {
          assert i in s.shoppingItems;
        } else {
          var k :| 0 <= k < |o.store.shoppingItems| && o.store.shoppingItems[k] == i;
        }
      }
    }
  }

  /** The requested ids that name a shopping item of the caller's. */
  function OwnedAmong(s: Store, user: Id, ids: seq<Id>): (r: set<Id>)
    ensures forall id :: id in r <==> id in ids && OwnsShoppingItem(s, user, id)
  {
    set id | id in ids && OwnsShoppingItem(s, user, id)
  }

  /** `deleteShoppingPlanItems`: deletes those of the requested items whose plan is the caller's. */
  function DeleteShoppingPlanItems(s: Store, session: Session, ids: seq<Id>): (o: Outcome<Row<ShoppingItem>>)
    ensures session.None? ==> o == Outcome(Err(Unauthorized), s)
    ensures session.Some? ==>
              var owned := OwnedAmong(s, session.value, ids);
              && o.result.Ok?
              && o.store == s.(shoppingItems := o.store.shoppingItems)
              && Ids(o.store.shoppingItems) == Ids(s.shoppingItems) - owned
              && (forall i | i in o.store.shoppingItems :: i in s.shoppingItems)
              && (forall i | i in s.shoppingItems && i.id !in owned :: i in o.store.shoppingItems)
              && (forall i | i in o.result.value :: i in s.shoppingItems && i.id in owned)
              && (forall i | i in s.shoppingItems && i.id in owned :: i in o.result.value)
    ensures session.Some? ==> Ids(o.result.value) == Ids(s.shoppingItems) - Ids(o.store.shoppingItems)
    ensures session.Some? && KeysUnique(s.shoppingItems) ==> KeysUnique(o.result.value)
    ensures session.Some? && OwnedAmong(s, session.value, ids) == {} ==> o.store == s
  {
    match session
    case None => Outcome(Err(Unauthorized), s)
    case Some(u) =>
      var owned := OwnedAmong(s, u, ids);
      var next := DeleteShoppingItemRows(s, owned);
      RemovedRowsReturned(s.shoppingItems, owned, next.shoppingItems);
      Outcome(Ok(RowsWithIds(s.shoppingItems, owned)), next)
  }

  lemma DeleteShoppingPlanItemsValid(s: Store, session: Session, ids: seq<Id>)
    requires Valid(s)
    ensures Valid(DeleteShoppingPlanItems(s, session, ids).store)
  {
    if session.Some? {
      DeleteShoppingItemRowsValid(s, OwnedAmong(s, session.value, ids));
    }
  }

  /** `deleteShoppingPlanItem`: deletes the item with the given id when its plan is the caller's. */
  function DeleteShoppingPlanItem(s: Store, session: Session, id: Id): (o: Outcome<Row<ShoppingItem>>)
    ensures session.None? ==> o == Outcome(Err(Unauthorized), s)
    ensures session.Some? && !OwnsShoppingItem(s, session.value, id) ==> o == Outcome(Ok([]), s)
    ensures session.Some? && OwnsShoppingItem(s, session.value, id) ==>
              && o.result == Ok([Row(id, Get(s.shoppingItems, id).value)])
              && o.store == s.(shoppingItems := o.store.shoppingItems)
              && Ids(o.store.shoppingItems) == Ids(s.shoppingItems) - {id}
              && (forall i | i in o.store.shoppingItems :: i in s.shoppingItems)
              && (forall i | i in s.shoppingItems && i.id != id :: i in o.store.shoppingItems)
  {
    match session
    case None => Outcome(Err(Unauthorized), s)
    case Some(u) =>
      if OwnsShoppingItem(s, u, id) then
        Outcome(Ok([Row(id, Get(s.shoppingItems, id).value)]), DeleteShoppingItemRows(s, {id}))
      else
        Outcome(Ok([]), s)
  }

  lemma DeleteShoppingPlanItemValid(s: Store, session: Session, id: Id)
    requires Valid(s)
    ensures Valid(DeleteShoppingPlanItem(s, session, id).store)
  {
    DeleteShoppingItemRowsValid(s, {id});
  }
}

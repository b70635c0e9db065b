/**
 * The shopping-plan server functions: the plan summaries (item count and
 * total, and the transaction each plan is linked to), fetch one, create,
 * update and delete, each restricted to the signed-in user's plans.
 */
module ShoppingPlans {
  import opened Wrappers
  import opened Tables
  import opened Schema
  import opened Access

  /** The validated shopping-plan form. */
  datatype PlanForm = PlanForm(datetime: int, title: string)

  /**
   * A row of a plan summary. The transactions are left-joined, so a plan
   * linked to several transactions yields one row per transaction and a plan
   * linked to none yields one row with no `transactionId`.
   */
  datatype PlanSummary = PlanSummary(
    id: Id, datetime: int, title: string, count: nat, total: real, transactionId: Option<Id>)

  /** Selects the shopping items of a plan. */
  function OfPlan(plan: Id): Row<ShoppingItem> -> bool {
    (i: Row<ShoppingItem>) => i.val.shoppingPlanId == plan
  }

  function ItemsOf(s: Store, plan: Id): Table<ShoppingItem> {
    Where(s.shoppingItems, OfPlan(plan))
  }

  function ItemTotal(i: Row<ShoppingItem>): real { i.val.total }

  /** Selects the transactions linked to a plan. */
  function LinkedTo(plan: Id): Row<Transaction> -> bool {
    (t: Row<Transaction>) => t.val.shoppingPlanId == Some(plan)
  }

  function LinkedTransactions(s: Store, plan: Id): Table<Transaction> {
    Where(s.transactions, LinkedTo(plan))
  }

  /** A summary row of a plan, for one linked transaction or for none. */
  function SummaryRow(s: Store, p: Row<ShoppingPlan>, tx: Option<Id>): PlanSummary {
    var items := ItemsOf(s, p.id);
    PlanSummary(p.id, p.val.datetime, p.val.title, |items|, Sum(items, ItemTotal), tx)
  }

  /** The summary rows of one plan: its grouped items, coalesced to 0, joined with its transactions. */
  function PlanRows(s: Store, p: Row<ShoppingPlan>): (r: seq<PlanSummary>)
    ensures |r| == if |LinkedTransactions(s, p.id)| == 0 then 1 else |LinkedTransactions(s, p.id)|
    ensures forall x | x in r ::
              && x.id == p.id && x.datetime == p.val.datetime && x.title == p.val.title
              && x.count == |ItemsOf(s, p.id)| && x.total == Sum(ItemsOf(s, p.id), ItemTotal)
  {
    var linked := LinkedTransactions(s, p.id);
    if |linked| == 0 then [SummaryRow(s, p, None)]
    else Project(linked, (t: Row<Transaction>) => SummaryRow(s, p, Some(t.id)))
  }

  /**
   * A plan's rows carry no transaction exactly when nothing is linked to it;
   * otherwise each row names a linked transaction and each linked
   * transaction has its row.
   */
  lemma PlanRowsLinks(s: Store, p: Row<ShoppingPlan>)
    ensures forall x | x in PlanRows(s, p) :: x.transactionId.None? <==> LinkedTransactions(s, p.id) == []
    ensures forall x | x in PlanRows(s, p) && x.transactionId.Some? ::
              exists t | t in s.transactions :: t.id == x.transactionId.value && t.val.shoppingPlanId == Some(p.id)
    ensures forall t | t in LinkedTransactions(s, p.id) :: exists x | x in PlanRows(s, p) :: x.transactionId == Some(t.id)
  {
    var linked := LinkedTransactions(s, p.id);
    var r := PlanRows(s, p);
    forall x | x in r ensures x.transactionId.None? <==> linked == [] {
      var i :| 0 <= i < |r| && r[i] == x;
    }
    forall x | x in r && x.transactionId.Some?
      ensures exists t | t in s.transactions :: t.id == x.transactionId.value && t.val.shoppingPlanId == Some(p.id)
    {
      var i :| 0 <= i < |r| && r[i] == x;
      assert linked[i] in s.transactions;
    }
    forall t | t in linked ensures exists x | x in r :: x.transactionId == Some(t.id) {
      var i :| 0 <= i < |linked| && linked[i] == t;
      assert r[i].transactionId == Some(t.id);
    }
  }

  /** Selects the plans of a user. */
  function OwnedBy(user: Id): Row<ShoppingPlan> -> bool {
    (p: Row<ShoppingPlan>) => p.val.userId == user
  }

  function OwnedPlans(s: Store, user: Id): Table<ShoppingPlan> {
    Where(s.shoppingPlans, OwnedBy(user))
  }

  /** Expands a plan into its summary rows. */
  function RowsOf(s: Store): Row<ShoppingPlan> -> seq<PlanSummary> {
    (q: Row<ShoppingPlan>) => PlanRows(s, q)
  }

  /** Selects the summary rows of the plan with the given id. */
  function SummaryOf(id: Id): PlanSummary -> bool {
    (x: PlanSummary) => x.id == id
  }

  /**
   * With unique plan ids, the rows of the joined summary that carry a plan's
   * id are exactly that plan's own rows, in order.
   */
  lemma SummaryRowsOfPlan(s: Store, user: Id, p: Row<ShoppingPlan>)
    requires KeysUnique(s.shoppingPlans)
    requires p in s.shoppingPlans && p.val.userId == user
    ensures Where(FlatMap(OwnedPlans(s, user), RowsOf(s)), SummaryOf(p.id)) == PlanRows(s, p)
  {
    var plans := OwnedPlans(s, user);
    var rows := RowsOf(s);
    WhereKeysUnique(s.shoppingPlans, OwnedBy(user));
    WhereMember(s.shoppingPlans, OwnedBy(user));
    assert p in plans;
    var k :| 0 <= k < |plans| && plans[k] == p;
    forall j, y | 0 <= j < |plans| && j != k && y in rows(plans[j]) ensures !SummaryOf(p.id)(y) {
      assert y.id == plans[j].id;
    }
    WhereFlatMapOne(plans, rows, SummaryOf(p.id), k);
  }

  lemma SummaryRowsPerPlan(s: Store, user: Id)
    ensures KeysUnique(s.shoppingPlans) ==>
              forall p | p in s.shoppingPlans && p.val.userId == user ::
                Where(FlatMap(OwnedPlans(s, user), RowsOf(s)), SummaryOf(p.id)) == PlanRows(s, p)
  {
    if KeysUnique(s.shoppingPlans) {
      forall p | p in s.shoppingPlans && p.val.userId == user
        ensures Where(FlatMap(OwnedPlans(s, user), RowsOf(s)), SummaryOf(p.id)) == PlanRows(s, p)
      {
        SummaryRowsOfPlan(s, user, p);
      }
    }
  }

  /** `getShoppingPlansSummary`: the summary rows of every plan of the caller. */
  function GetShoppingPlansSummary(s: Store, session: Session): (r: Result<seq<PlanSummary>>)
    ensures session.None? ==> r == Err(Unauthorized)
    ensures session.Some? ==> r.Ok?
    ensures session.Some? ==>
              forall x | x in r.value :: exists p | p in s.shoppingPlans ::
                p.val.userId == session.value && x in PlanRows(s, p)
    ensures session.Some? ==>
              forall p | p in s.shoppingPlans && p.val.userId == session.value :: forall x | x in PlanRows(s, p) ::
                x in r.value
    ensures session.Some? && KeysUnique(s.shoppingPlans) ==>
              forall p | p in s.shoppingPlans && p.val.userId == session.value ::
                Where(r.value, SummaryOf(p.id)) == PlanRows(s, p)
  {
    match session
    case None => Err(Unauthorized)
    case Some(u) =>
      var plans := OwnedPlans(s, u);
      var rows := RowsOf(s);
      var r := FlatMap(plans, rows);
      FlatMapCovers(plans, rows);
      WhereMember(s.shoppingPlans, OwnedBy(u));
      SummaryRowsPerPlan(s, u);
      assert forall p | p in s.shoppingPlans && p.val.userId == u :: exists i | 0 <= i < |plans| :: plans[i] == p;
      Ok(r)
  }

  /** `getShoppingPlanSummary`: the summary rows of the caller's plan with the given id. */
  function GetShoppingPlanSummary(s: Store, session: Session, id: Id): (r: Result<seq<PlanSummary>>)
    ensures session.None? ==> r == Err(Unauthorized)
    ensures session.Some? ==> r.Ok?
    ensures session.Some? ==> forall x | x in r.value :: x.id == id
    ensures session.Some? && KeysUnique(s.shoppingPlans) && !OwnsShoppingPlan(s, session.value, id) ==> r.value == []
    ensures session.Some? && KeysUnique(s.shoppingPlans) && OwnsShoppingPlan(s, session.value, id) ==>
              r.value == PlanRows(s, Row(id, Get(s.shoppingPlans, id).value))
  {
    match session
    case None => Err(Unauthorized)
    case Some(u) =>
      var plans := SelectById(s.shoppingPlans, id, (p: ShoppingPlan) => p.userId == u);
      var rows := (p: Row<ShoppingPlan>) => PlanRows(s, p);
      var r := FlatMap(plans, rows);
      forall x | x in r ensures x.id == id {
        FlatMapMember(plans, rows, x);
      }
      assert |plans| == 1 ==> plans[0] in plans;
      Ok(r)
  }

  /** `getShoppingPlan`: the caller's plan with the given id, at most one row. */
  function GetShoppingPlan(s: Store, session: Session, id: Id): (r: Result<Table<ShoppingPlan>>)
    ensures session.None? ==> r == Err(Unauthorized)
    ensures session.Some? ==> r.Ok? && |r.value| <= 1
    ensures session.Some? ==>
              forall x | x in r.value :: x in s.shoppingPlans && x.id == id && x.val.userId == session.value
    ensures session.Some? && KeysUnique(s.shoppingPlans) ==>
              (r.value != [] <==> OwnsShoppingPlan(s, session.value, id))
  {
    match session
    case None => Err(Unauthorized)
    case Some(u) => Ok(SelectById(s.shoppingPlans, id, (p: ShoppingPlan) => p.userId == u))
  }

  /** `createShoppingPlan`: inserts a plan of the caller. */
  function CreateShoppingPlan(s: Store, session: Session, id: Id, now: int, form: PlanForm): (o: Outcome<Row<ShoppingPlan>>)
    ensures session.None? ==> o == Outcome(Err(Unauthorized), s)
    ensures !o.result.Ok? ==> o.store == s
    ensures o.result.Ok? ==>
              && session.Some?
              && o.result.value == [Row(id, ShoppingPlan(form.datetime, form.title, session.value, now))]
              && o.store == s.(shoppingPlans := s.shoppingPlans + o.result.value)
              && Valid(o.store)
  {
    match session
    case None => Outcome(Err(Unauthorized), s)
    case Some(u) =>
      var row := Row(id, ShoppingPlan(form.datetime, form.title, u, now));
      Commit(s, s.(shoppingPlans := s.shoppingPlans + [row]), [row])
  }

  /**
   * The insert is accepted exactly when the id is new, the caller exists as
   * a user and the title fits its `varchar(256)` column.
   */
  lemma CreateShoppingPlanAccepted(s: Store, user: Id, id: Id, now: int, form: PlanForm)
    requires Valid(s)
    ensures CreateShoppingPlan(s, Some(user), id, now, form).result.Ok? <==>
            id !in Ids(s.shoppingPlans) && user in Ids(s.users) && Fits(form.title)
  {
    var row := Row(id, ShoppingPlan(form.datetime, form.title, user, now));
    var next := s.(shoppingPlans := s.shoppingPlans + [row]);
    AppendRow(s.shoppingPlans, row.id, row.val);
    assert row in next.shoppingPlans;
    if id !in Ids(s.shoppingPlans) && user in Ids(s.users) && Fits(form.title) {
      assert Valid(next) by {
        forall p | p in next.shoppingPlans ensures p.val.userId in Ids(next.users) && Fits(p.val.title) {
          if p != row {
            assert p in s.shoppingPlans;
          }
        }
        assert TransactionRefs(next) by {
          assert forall t | t in next.transactions :: RefIn(t.val.shoppingPlanId, Ids(s.shoppingPlans));
        }
        assert ItemRefs(next) by {
          assert forall i | i in next.shoppingItems :: i.val.shoppingPlanId in Ids(s.shoppingPlans);
        }
      }
    }
  }

  /**
   * `updateShoppingPlan`: sets the date and title of the caller's plan. Its
   * `returning` clause nests the column map under a single key instead of
   * spreading it, so no row it returns holds the plan's columns at the top
   * level; the result is one unit per updated row.
   */
  function UpdateShoppingPlan(s: Store, session: Session, id: Id, form: PlanForm): (o: Outcome<()>)
    ensures session.None? ==> o == Outcome(Err(Unauthorized), s)
    ensures session.Some? && !OwnsShoppingPlan(s, session.value, id) ==> o == Outcome(Ok([]), s)
    ensures !o.result.Ok? ==> o.store == s
    ensures o.result.Ok? && session.Some? && OwnsShoppingPlan(s, session.value, id) ==>
              && o.result == Ok([()])
              && o.store == s.(shoppingPlans := o.store.shoppingPlans)
              && Ids(o.store.shoppingPlans) == Ids(s.shoppingPlans)
              && (forall x | x in s.shoppingPlans && x.id != id :: x in o.store.shoppingPlans)
              && (forall x | x in o.store.shoppingPlans && x.id != id :: x in s.shoppingPlans)
              && (KeysUnique(s.shoppingPlans) ==>
                    Get(o.store.shoppingPlans, id) ==
                    Some(Get(s.shoppingPlans, id).value.(datetime := form.datetime, title := form.title)))
              && Valid(o.store)
  {
    match session
    case None => Outcome(Err(Unauthorized), s)
    case Some(u) =>
      if OwnsShoppingPlan(s, u, id) then
        var v := Get(s.shoppingPlans, id).value.(datetime := form.datetime, title := form.title);
        SetValGet(s.shoppingPlans, id, v, id);
        Commit(s, s.(shoppingPlans := SetVal(s.shoppingPlans, id, v)), [()])
      else
        Outcome(Ok([]), s)
  }

  /** An update of the caller's plan is accepted exactly when the new title fits its column. */
  lemma UpdateShoppingPlanAccepted(s: Store, user: Id, id: Id, form: PlanForm)
    requires Valid(s)
    requires OwnsShoppingPlan(s, user, id)
    ensures UpdateShoppingPlan(s, Some(user), id, form).result.Ok? <==> Fits(form.title)
  {
    var before := Get(s.shoppingPlans, id).value;
    assert Row(id, before) in s.shoppingPlans;
    SetShoppingPlanValid(s, id, before.(datetime := form.datetime, title := form.title));
  }

  lemma UpdateShoppingPlanValid(s: Store, session: Session, id: Id, form: PlanForm)
    requires Valid(s)
    ensures Valid(UpdateShoppingPlan(s, session, id, form).store)
  {
  }

  /**
   * `deleteShoppingPlan`: deletes the caller's plan with its items; the
   * transactions linked to it stay, unlinked.
   */
  function DeleteShoppingPlan(s: Store, session: Session, id: Id): (o: Outcome<Row<ShoppingPlan>>)
    ensures session.None? ==> o == Outcome(Err(Unauthorized), s)
    ensures session.Some? && !OwnsShoppingPlan(s, session.value, id) ==> o == Outcome(Ok([]), s)
    ensures session.Some? && OwnsShoppingPlan(s, session.value, id) ==>
              && o.result.Ok?
              && o.result.value == [Row(id, Get(s.shoppingPlans, id).value)]
              && Ids(o.store.shoppingPlans) == Ids(s.shoppingPlans) - {id}
              && (forall p | p in s.shoppingPlans && p.id != id :: p in o.store.shoppingPlans)
              && (forall p | p in o.store.shoppingPlans :: p in s.shoppingPlans)
              && (forall i | i in o.store.shoppingItems :: i in s.shoppingItems && i.val.shoppingPlanId != id)
              && (forall i | i in s.shoppingItems && i.val.shoppingPlanId != id :: i in o.store.shoppingItems)
              && Ids(o.store.transactions) == Ids(s.transactions)
              && |o.store.transactions| == |s.transactions|
              && (forall i | 0 <= i < |s.transactions| ::
                    o.store.transactions[i] == Row(s.transactions[i].id,
                      s.transactions[i].val.(shoppingPlanId := Unlink(s.transactions[i].val.shoppingPlanId, {id}))))
              && (forall t | t in o.store.transactions :: t.val.shoppingPlanId != Some(id))
              && (forall t | t in s.transactions && t.val.shoppingPlanId != Some(id) :: t in o.store.transactions)
              && o.store == s.(shoppingPlans := o.store.shoppingPlans, shoppingItems := o.store.shoppingItems,
                               transactions := o.store.transactions)
  {
    match session
    case None => Outcome(Err(Unauthorized), s)
    case Some(u) =>
      if OwnsShoppingPlan(s, u, id) then
        var next := DeleteShoppingPlanRows(s, {id});
        DeleteShoppingPlanRowsUnlinks(s, id);
        Outcome(Ok([Row(id, Get(s.shoppingPlans, id).value)]), next)
      else
        Outcome(Ok([]), s)
  }

  /** Deleting a plan unlinks exactly its transactions and keeps every transaction. */
  lemma DeleteShoppingPlanRowsUnlinks(s: Store, id: Id)
    ensures var next := DeleteShoppingPlanRows(s, {id});
            && Ids(next.transactions) == Ids(s.transactions)
            && (forall t | t in next.transactions :: t.val.shoppingPlanId != Some(id))
            && (forall t | t in s.transactions && t.val.shoppingPlanId != Some(id) :: t in next.transactions)
  {
    var next := DeleteShoppingPlanRows(s, {id});
    MapValsKeys(s.transactions,
      (x: Row<Transaction>) => x.val.(shoppingPlanId := Unlink(x.val.shoppingPlanId, {id})));
    forall t | t in s.transactions && t.val.shoppingPlanId != Some(id) ensures t in next.transactions {
      var i :| 0 <= i < |s.transactions| && s.transactions[i] == t;
      assert next.transactions[i] == t;
    }
    forall t | t in next.transactions ensures t.val.shoppingPlanId != Some(id) {
      var i :| 0 <= i < |next.transactions| && next.transactions[i] == t;
    }
  }

  lemma DeleteShoppingPlanValid(s: Store, session: Session, id: Id)
    requires Valid(s)
    ensures Valid(DeleteShoppingPlan(s, session, id).store)
  {
    DeleteShoppingPlanRowsValid(s, {id});
  }
}

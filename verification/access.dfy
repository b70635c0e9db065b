/**
 * What every server function shares: the session it reads from the auth
 * provider, the errors it can end with, the shape of a writing call's
 * outcome, and who owns which row.
 */
module Access {
  import opened Wrappers
  import opened Tables
  import opened Schema

  /** The signed-in user's id, or `None` when there is no session. */
  type Session = Option<Id>

  datatype Error =
    | Unauthorized          // no session: thrown before any query runs
    | RequestFailed         // an explicit "Failed to do the request" throw
    | ConstraintViolation   // the database rejects the statement (duplicate key, dangling reference, text too long)

  datatype Result<T> = Ok(value: T) | Err(error: Error)

  /** What a writing server function returns, and the store after it. */
  datatype Outcome<T> = Outcome(result: Result<seq<T>>, store: Store)

  /**
   * The database runs a statement atomically: it commits when the new store
   * keeps every key unique, every reference resolved and every text within
   * its column, and otherwise rejects it and leaves the store as it was. A
   * statement therefore never takes a valid store to an invalid one.
   */
  function Commit<T>(s: Store, next: Store, rows: seq<T>): (o: Outcome<T>)
    ensures o.result.Ok? <==> Valid(next)
    ensures o.result.Ok? ==> o.result.value == rows && o.store == next
    ensures o.result.Err? ==> o.result.error == ConstraintViolation && o.store == s
    ensures Valid(s) ==> Valid(o.store)
  {
    if Valid(next) then Outcome(Ok(rows), next) else Outcome(Err(ConstraintViolation), s)
  }

  // Ownership. Accounts, categories, shopping plans and budget plans carry a
  // `userId`; transactions belong to whoever owns their account, shopping
  // items and budget categories to whoever owns their plan.

  predicate OwnsAccount(s: Store, user: Id, id: Id) {
    var a := Get(s.accounts, id); a.Some? && a.value.userId == user
  }

  predicate OwnsCategory(s: Store, user: Id, id: Id) {
    var c := Get(s.categories, id); c.Some? && c.value.userId == user
  }

  predicate OwnsShoppingPlan(s: Store, user: Id, id: Id) {
    var p := Get(s.shoppingPlans, id); p.Some? && p.value.userId == user
  }

  predicate OwnsBudgetPlan(s: Store, user: Id, id: Id) {
    var p := Get(s.budgetPlans, id); p.Some? && p.value.userId == user
  }

  predicate OwnsTransaction(s: Store, user: Id, id: Id) {
    var t := Get(s.transactions, id); t.Some? && OwnsAccount(s, user, t.value.accountId)
  }

  predicate OwnsShoppingItem(s: Store, user: Id, id: Id) {
    var i := Get(s.shoppingItems, id); i.Some? && OwnsShoppingPlan(s, user, i.value.shoppingPlanId)
  }

  predicate OwnsBudgetCategory(s: Store, user: Id, id: Id) {
    var c := Get(s.budgetCategories, id); c.Some? && OwnsBudgetPlan(s, user, c.value.budgetPlanId)
  }

  /** Under a unique key, a stored row is what `Get` finds under its id. */
  lemma GetRow<T>(t: Table<T>, x: Row<T>)
    requires KeysUnique(t) && x in t
    ensures Get(t, x.id) == Some(x.val)
  {
    var i :| 0 <= i < |t| && t[i] == x;
  }
}

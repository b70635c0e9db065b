/**
 * The account server functions: list with per-account transaction count and
 * total, fetch one, create, update and delete, each restricted to the
 * signed-in user's accounts.
 */
module Accounts {
  import opened Wrappers
  import opened Tables
  import opened Schema
  import opened Access
  import Utils

  /** The validated account form; the balance is in units. */
  datatype AccountForm = AccountForm(name: string, initialBalance: real)

  /** A row of the account list. */
  datatype AccountSummary = AccountSummary(id: Id, name: string, initialBalance: real, count: nat, total: real)

  /** Selects the transactions booked on an account. */
  function OnAccount(account: Id): Row<Transaction> -> bool {
    (t: Row<Transaction>) => t.val.accountId == account
  }

  /** The transactions booked on an account. */
  function TransactionsOf(s: Store, account: Id): Table<Transaction> {
    Where(s.transactions, OnAccount(account))
  }

  /** The list row of an account: the left join with its grouped transactions, coalesced to 0. */
  function Summarize(s: Store, a: Row<Account>): AccountSummary {
    var txs := TransactionsOf(s, a.id);
    AccountSummary(a.id, a.val.name, a.val.initialBalance, |txs|, Sum(txs, Amount))
  }

  function OwnedAccounts(s: Store, user: Id): Table<Account> {
    Where(s.accounts, (a: Row<Account>) => a.val.userId == user)
  }

  /** The list rows, one per owned account, in table order. */
  function AccountRows(s: Store, user: Id): seq<AccountSummary> {
    Project(OwnedAccounts(s, user), (a: Row<Account>) => Summarize(s, a))
  }

  lemma AccountRowsSound(s: Store, user: Id)
    ensures forall x | x in AccountRows(s, user) ::
              exists a | a in s.accounts :: a.val.userId == user && x == Summarize(s, a)
  {
    var owned := OwnedAccounts(s, user);
    var r := AccountRows(s, user);
    forall x | x in r ensures exists a | a in s.accounts :: a.val.userId == user && x == Summarize(s, a) {
      var i :| 0 <= i < |r| && r[i] == x;
      assert owned[i] in s.accounts;
    }
  }

  lemma AccountRowsCover(s: Store, user: Id)
    ensures forall i | 0 <= i < |s.accounts| && s.accounts[i].val.userId == user ::
              exists x | x in AccountRows(s, user) :: x.id == s.accounts[i].id
  {
    var owned := OwnedAccounts(s, user);
    var r := AccountRows(s, user);
    forall i | 0 <= i < |s.accounts| && s.accounts[i].val.userId == user
      ensures exists x | x in r :: x.id == s.accounts[i].id
    {
      var j :| 0 <= j < |owned| && owned[j] == s.accounts[i];
      assert r[j].id == s.accounts[i].id;
    }
  }

  lemma AccountRowsQuiet(s: Store, user: Id)
    ensures forall x | x in AccountRows(s, user) && (forall t | t in s.transactions :: t.val.accountId != x.id) ::
              x.count == 0 && x.total == 0.0
  {
    forall x | x in AccountRows(s, user) && (forall t | t in s.transactions :: t.val.accountId != x.id)
      ensures x.count == 0 && x.total == 0.0
    {
      WhereEmpty(s.transactions, OnAccount(x.id));
    }
  }

  /** `getAccounts`: one row per account of the caller, with its transaction count and total. */
  function GetAccounts(s: Store, session: Session): (r: Result<seq<AccountSummary>>)
    ensures session.None? ==> r == Err(Unauthorized)
    ensures session.Some? ==> r.Ok? && |r.value| == |OwnedAccounts(s, session.value)|
    ensures session.Some? ==>
              forall x | x in r.value :: exists a | a in s.accounts ::
                a.val.userId == session.value && a.id == x.id &&
                x.name == a.val.name && x.initialBalance == a.val.initialBalance
    ensures session.Some? ==>
              forall i | 0 <= i < |s.accounts| && s.accounts[i].val.userId == session.value ::
                exists x | x in r.value :: x.id == s.accounts[i].id
    ensures session.Some? ==>
              forall x | x in r.value ::
                x.count == |TransactionsOf(s, x.id)| && x.total == Sum(TransactionsOf(s, x.id), Amount)
    ensures session.Some? ==>
              forall x | x in r.value && (forall t | t in s.transactions :: t.val.accountId != x.id) ::
                x.count == 0 && x.total == 0.0
  {
    match session
    case None => Err(Unauthorized)
    case Some(u) =>
      AccountRowsSound(s, u);
      AccountRowsCover(s, u);
      AccountRowsQuiet(s, u);
      Ok(AccountRows(s, u))
  }

  /** `getAccount`: the caller's account with the given id, at most one row. */
  function GetAccount(s: Store, session: Session, id: Id): (r: Result<Table<Account>>)
    ensures session.None? ==> r == Err(Unauthorized)
    ensures session.Some? ==> r.Ok? && |r.value| <= 1
    ensures session.Some? ==> forall x | x in r.value :: x in s.accounts && x.id == id && x.val.userId == session.value
    ensures session.Some? && KeysUnique(s.accounts) ==> (r.value != [] <==> OwnsAccount(s, session.value, id))
  {
    match session
    case None => Err(Unauthorized)
    case Some(u) => Ok(SelectById(s.accounts, id, (a: Account) => a.userId == u))
  }

  /** `createAccount`: inserts an account of the caller, the balance converted to miliunits. */
  function CreateAccount(s: Store, session: Session, id: Id, now: int, form: AccountForm): (o: Outcome<Row<Account>>)
    ensures session.None? ==> o == Outcome(Err(Unauthorized), s)
    ensures !o.result.Ok? ==> o.store == s
    ensures o.result.Ok? ==>
              && session.Some?
              && |o.result.value| == 1
              && o.result.value[0].id == id
              && o.result.value[0].val == Account(form.name, Utils.ConvertToMiliunits(form.initialBalance), session.value, now)
              && o.store == s.(accounts := s.accounts + o.result.value)
              && Valid(o.store)
  {
    match session
    case None => Outcome(Err(Unauthorized), s)
    case Some(u) =>
      var row := Row(id, Account(form.name, Utils.ConvertToMiliunits(form.initialBalance), u, now));
      Commit(s, s.(accounts := s.accounts + [row]), [row])
  }

  /**
   * The insert is accepted exactly when the id is new, the caller exists as
   * a user and the name fits its `varchar(256)` column.
   */
  lemma CreateAccountAccepted(s: Store, user: Id, id: Id, now: int, form: AccountForm)
    requires Valid(s)
    ensures CreateAccount(s, Some(user), id, now, form).result.Ok? <==>
            id !in Ids(s.accounts) && user in Ids(s.users) && Fits(form.name)
  {
    var row := Row(id, Account(form.name, Utils.ConvertToMiliunits(form.initialBalance), user, now));
    var next := s.(accounts := s.accounts + [row]);
    AppendRow(s.accounts, row.id, row.val);
    assert row in next.accounts;
    if id !in Ids(s.accounts) && user in Ids(s.users) && Fits(form.name) {
      forall a | a in next.accounts ensures a.val.userId in Ids(next.users) && Fits(a.val.name) {
        if a != row {
          assert a in s.accounts;
        }
      }
      assert Valid(next);
    }
  }

  /** The row an update of the account writes: the form's name and its balance in miliunits. */
  function Renamed(a: Account, form: AccountForm): (r: Account)
    ensures r.userId == a.userId && r.createdAt == a.createdAt
    ensures r.name == form.name && Utils.ConvertFromMiliunits(r.initialBalance) == form.initialBalance
  {
    Utils.MiliunitsRoundTrip(form.initialBalance);
    a.(name := form.name, initialBalance := Utils.ConvertToMiliunits(form.initialBalance))
  }

  /**
   * `updateAccount`: renames the caller's account and resets its balance;
   * only the one row changes.
   */
  function UpdateAccount(s: Store, session: Session, id: Id, form: AccountForm): (o: Outcome<Row<Account>>)
    ensures session.None? ==> o == Outcome(Err(Unauthorized), s)
    ensures session.Some? && !OwnsAccount(s, session.value, id) ==> o == Outcome(Ok([]), s)
    ensures !o.result.Ok? ==> o.store == s
    ensures o.result.Ok? && session.Some? && OwnsAccount(s, session.value, id) ==>
              var v := Renamed(Get(s.accounts, id).value, form);
              && o.result.value == [Row(id, v)]
              && o.store == s.(accounts := o.store.accounts)
              && Ids(o.store.accounts) == Ids(s.accounts)
              && (forall x | x in s.accounts && x.id != id :: x in o.store.accounts)
              && (forall x | x in o.store.accounts && x.id != id :: x in s.accounts)
              && (KeysUnique(s.accounts) ==> Get(o.store.accounts, id) == Some(v))
              && Valid(o.store)
  {
    match session
    case None => Outcome(Err(Unauthorized), s)
    case Some(u) =>
      if OwnsAccount(s, u, id) then
        var v := Renamed(Get(s.accounts, id).value, form);
        SetValGet(s.accounts, id, v, id);
        Commit(s, s.(accounts := SetVal(s.accounts, id, v)), [Row(id, v)])
      else
        Outcome(Ok([]), s)
  }

  /** An update of the caller's account is accepted exactly when the new name fits its column. */
  lemma UpdateAccountAccepted(s: Store, user: Id, id: Id, form: AccountForm)
    requires Valid(s)
    requires OwnsAccount(s, user, id)
    ensures UpdateAccount(s, Some(user), id, form).result.Ok? <==> Fits(form.name)
  {
    var before := Get(s.accounts, id).value;
    assert Row(id, before) in s.accounts;
    SetAccountValid(s, id, Renamed(before, form));
  }

  lemma UpdateAccountValid(s: Store, session: Session, id: Id, form: AccountForm)
    requires Valid(s)
    ensures Valid(UpdateAccount(s, session, id, form).store)
  {
  }

  /** `deleteAccount`: deletes the caller's account, and with it every transaction booked on it. */
  function DeleteAccount(s: Store, session: Session, id: Id): (o: Outcome<Row<Account>>)
    ensures session.None? ==> o == Outcome(Err(Unauthorized), s)
    ensures session.Some? && !OwnsAccount(s, session.value, id) ==> o == Outcome(Ok([]), s)
    ensures session.Some? && OwnsAccount(s, session.value, id) ==>
              && o.result.Ok?
              && o.result.value == [Row(id, Get(s.accounts, id).value)]
              && Ids(o.store.accounts) == Ids(s.accounts) - {id}
              && (forall x | x in s.accounts && x.id != id :: x in o.store.accounts)
              && (forall x | x in o.store.accounts :: x in s.accounts)
              && (forall t | t in o.store.transactions :: t in s.transactions && t.val.accountId != id)
              && (forall t | t in s.transactions && t.val.accountId != id :: t in o.store.transactions)
              && o.store == s.(accounts := o.store.accounts, transactions := o.store.transactions)
  {
    match session
    case None => Outcome(Err(Unauthorized), s)
    case Some(u) =>
      if OwnsAccount(s, u, id) then
        Outcome(Ok([Row(id, Get(s.accounts, id).value)]), DeleteAccountRows(s, {id}))
      else
        Outcome(Ok([]), s)
  }

  lemma DeleteAccountValid(s: Store, session: Session, id: Id)
    requires Valid(s)
    ensures Valid(DeleteAccount(s, session, id).store)
  {
    DeleteAccountRowsValid(s, {id});
  }

  /** The caller's transactions are exactly those booked on one of the listed accounts. */
  lemma OwnedTransactions(s: Store, user: Id)
    requires KeysUnique(s.accounts)
    ensures NoDup(Keys(OwnedAccounts(s, user)))
    ensures forall t | t in s.transactions ::
              (t.val.accountId in Keys(OwnedAccounts(s, user))) == OwnsAccount(s, user, t.val.accountId)
  {
    var accounts := OwnedAccounts(s, user);
    var keys := Keys(accounts);
    WhereKeysUnique(s.accounts, (a: Row<Account>) => a.val.userId == user);
    forall t | t in s.transactions ensures (t.val.accountId in keys) == OwnsAccount(s, user, t.val.accountId) {
      if t.val.accountId in keys {
        var i :| 0 <= i < |keys| && keys[i] == t.val.accountId;
        GetRow(s.accounts, accounts[i]);
      }
      if OwnsAccount(s, user, t.val.accountId) {
        var a := Get(s.accounts, t.val.accountId).value;
        WhereMember(s.accounts, (a: Row<Account>) => a.val.userId == user);
        var i :| 0 <= i < |accounts| && accounts[i] == Row(t.val.accountId, a);
        assert keys[i] == t.val.accountId;
      }
    }
  }

  /** The per-account totals of the list add up to the net amount of all the caller's transactions. */
  lemma AccountTotalsAddUp(s: Store, user: Id)
    requires KeysUnique(s.accounts)
    ensures GetAccounts(s, Some(user)).Ok?
    ensures Sum(GetAccounts(s, Some(user)).value, (x: AccountSummary) => x.total)
            == Sum(Where(s.transactions, (t: Row<Transaction>) => OwnsAccount(s, user, t.val.accountId)), Amount)
  {
    var accounts := OwnedAccounts(s, user);
    var keys := Keys(accounts);
    var inKeys := (t: Row<Transaction>) => t.val.accountId in keys;
    var g := (k: Id) => Sum(TransactionsOf(s, k), Amount);
    OwnedTransactions(s, user);
    SumProject(accounts, (a: Row<Account>) => Summarize(s, a), (x: AccountSummary) => x.total,
               (a: Row<Account>) => g(a.id));
    SumKeys(accounts, g, (a: Row<Account>) => g(a.id));
    SumByKeys(keys, s.transactions, (t: Row<Transaction>) => t.val.accountId, OnAccount, inKeys, Amount, g);
    WhereCongruent(s.transactions, inKeys, (t: Row<Transaction>) => OwnsAccount(s, user, t.val.accountId));
  }

  /** The per-account counts of the list add up to the number of the caller's transactions. */
  lemma AccountCountsAddUp(s: Store, user: Id)
    requires KeysUnique(s.accounts)
    ensures GetAccounts(s, Some(user)).Ok?
    ensures Sum(GetAccounts(s, Some(user)).value, (x: AccountSummary) => x.count as real)
            == |Where(s.transactions, (t: Row<Transaction>) => OwnsAccount(s, user, t.val.accountId))| as real
  {
    var accounts := OwnedAccounts(s, user);
    var keys := Keys(accounts);
    var inKeys := (t: Row<Transaction>) => t.val.accountId in keys;
    var one := (t: Row<Transaction>) => 1.0;
    var g := (k: Id) => Sum(TransactionsOf(s, k), one);
    OwnedTransactions(s, user);
    forall k ensures g(k) == |TransactionsOf(s, k)| as real {
      SumOnes(TransactionsOf(s, k), one);
    }
    SumProject(accounts, (a: Row<Account>) => Summarize(s, a), (x: AccountSummary) => x.count as real,
               (a: Row<Account>) => g(a.id));
    SumKeys(accounts, g, (a: Row<Account>) => g(a.id));
    SumByKeys(keys, s.transactions, (t: Row<Transaction>) => t.val.accountId, OnAccount, inKeys, one, g);
    WhereCongruent(s.transactions, inKeys, (t: Row<Transaction>) => OwnsAccount(s, user, t.val.accountId));
    SumOnes(Where(s.transactions, inKeys), one);
  }
}

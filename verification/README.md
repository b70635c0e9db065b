# Zoincas server core in Dafny

Zoincas is a personal-finance web application. A signed-in user keeps:

- **accounts**, holding **transactions** that may carry a spending **category**;
- **shopping plans**, made of **shopping items**, which can be recorded as a transaction;
- **budget plans**, made of **budget categories**, to which transactions are connected.

This project models the application's server layer and its database schema.

The database is a `Store`: one table per entity, where a table is a sequence of `Row(id, val)`. `Schema.Valid` is the schema's integrity:

- primary keys are unique;
- every foreign key resolves;
- every name, title, description and user column holds at most 256 characters, its `varchar(256)` length.

The schema's `ON DELETE` rules are functions:

- `cascade` removes the dependent rows;
- `set null` clears the reference.

Each server function is a pure function of the store, the session and the request:

- the session is `Option<Id>`, and `None` means not signed in;
- a write returns an `Outcome` that holds the result and the next store.

A write the database would refuse (a duplicate key, a dangling reference or a text too long for its column) yields `ConstraintViolation` and leaves the store unchanged. Fresh ids and the current time are parameters.

Money is stored in miliunits, 1000 per currency unit. Dates are integer seconds, and days are UTC day numbers.

The three summary queries filter dates as the code writes them: from the start day's midnight up to the end day's midnight, so the end day itself counts only at midnight exactly. The whole-day range the filter evidently means is modelled beside it, and "## Findings" relates the two.

The model keeps the code's own access rules where they are looser than one would expect:

- creating a transaction, a shopping item or a budget category does not check who owns the referenced rows;
- `getTransactionBudget` and `getTransactionShopping` do not check ownership either;
- `getBudgetPlanTransactions` checks only the plan's owner;
- budget spend counts every connected transaction, whoever owns it;
- the category summary groups by category name;
- `createTransactionShopping` fails when the plan has no summary row, and stores the form's `planId` in the account column.

Modules:

| Module | Covers |
|---|---|
| `Wrappers` | `Option` |
| `Tables` | rows, filters, sums, projections |
| `Sorting` | stable insertion sort and order lemmas |
| `Schema` | tables, defaults, integrity, delete rules |
| `Access` | sessions, errors, ownership, commits |
| `Utils` | the helpers of `src/lib/utils.ts` |
| `Periods` | the summaries' date filter |
| `Accounts`, `Categories`, `Transactions`, `Summaries`, `ShoppingPlans`, `ShoppingItems`, `BudgetPlans`, `BudgetCategories` | one module per server file (`Summaries` holds the three summary queries of `transactions.ts`) |

## Model

| member | source | states |
|---|---|---|
| Utils.CalculateTotal | src/lib/utils.ts:69-81 | with no units, or a unit amount of 0, the total is the tax less the discount; one unit costs its amount less the discount plus the tax |
| Utils.CalculateTotalLinear | src/lib/utils.ts:69-81 | for any quantity, one more unit adds the unit amount; raising the discount lowers the total by as much, and raising the tax raises it by as much |
| Utils.CalculateTotalByUnits | src/lib/utils.ts:69-81 | for a non-negative quantity, the total equals the unit amount added up once per unit, less the discount, plus the tax |
| Utils.ConvertToMiliunits | src/lib/utils.ts:83-86 | converting to miliunits keeps the sign of the value: positive, negative or zero exactly when the value is |
| Utils.ConvertFromMiliunits | src/lib/utils.ts:88-91 | converting from miliunits keeps the sign of the value: positive, negative or zero exactly when the value is |
| Utils.MiliunitsRoundTrip | src/lib/utils.ts:83-91 | converting to miliunits and back gives the original value, in both orders |
| Utils.ConvertToMiliunitsMonotone | src/lib/utils.ts:83-86 | the conversion preserves and reflects both order and equality |
| Utils.CalculatePercentageDifference | src/lib/utils.ts:93-99 | 0 when both values are 0; 100 when only the previous one is 0; otherwise the change relative to the previous value, times 100; equal values give 0 |
| Utils.PercentageDifferenceSign | src/lib/utils.ts:93-99 | for a positive previous value, the difference is positive exactly when the value grew; for a negative one, exactly when it fell |
| Utils.FillMissingDate | src/lib/utils.ts:101-141 | no entries give no series; otherwise one point per day from start to end in order, each equal to the last entry for that day, or to zeros when there is none |
| Utils.FillMissingDateAt | src/lib/utils.ts:101-141 | the point at offset d from the start is the given day's entry, or a zero point |
| Utils.FillMissingDateGapFree | src/lib/utils.ts:101-141 | the series stays inside the range and consecutive points are one day apart |
| Utils.FillMissingDateKeepsEntries | src/lib/utils.ts:101-141 | an entry inside the range that is the last one for its day appears in the series with its income and expense |
| Utils.LookupDay | src/lib/utils.ts:116-133 | the lookup finds the last entry for the day, and finds nothing exactly when no entry has that day |
| Periods.EndDayExcludedAsWritten | src/server/transactions.ts:266-267 | the filter as written rejects a transaction at noon of the end day |
| Periods.AsWrittenCutsEndDay | src/server/transactions.ts:266-267 | the filter as written rejects every transaction on the end day after its midnight |
| Periods.AsWrittenWithinPeriod | src/server/transactions.ts:266-267 | whatever the filter as written accepts, the whole-day filter accepts too |
| Periods.InPeriodWholeDays | src/server/transactions.ts:266-267 | the corrected filter accepts a time exactly when its day lies between the start and end days |
| Periods.Midnight | src/server/transactions.ts:266-267 | the midnight of a day lies on that day |
| Schema.DefaultTransaction | src/lib/supabase/schema.ts:69-104 | a transaction inserted without values has amount 0, description "Untitled" and no category, shopping plan or budget category |
| Schema.DefaultShoppingItem | src/lib/supabase/schema.ts:148-166 | an item inserted without values is named "Untitled", has quantity 1 and zero amount, discount, tax and total |
| Schema.SetAccountValid | src/lib/supabase/schema.ts:24-31 | under a valid store, overwriting an account keeps integrity exactly when its user exists and its name fits 256 characters (or no such account exists) |
| Schema.SetCategoryValid | src/lib/supabase/schema.ts:50-54 | under a valid store, overwriting a category keeps integrity exactly when its user exists and its name fits (or no such category exists) |
| Schema.SetShoppingPlanValid | src/lib/supabase/schema.ts:125-133 | under a valid store, overwriting a shopping plan keeps integrity exactly when its user exists and its title fits (or no such plan exists) |
| Schema.SetShoppingItemValid | src/lib/supabase/schema.ts:151-161 | under a valid store, overwriting a shopping item keeps integrity exactly when its plan exists and its name fits (or no such item exists) |
| Schema.SetBudgetPlanValid | src/lib/supabase/schema.ts:180-184 | under a valid store, overwriting a budget plan keeps integrity exactly when its user exists and its title fits (or no such plan exists) |
| Schema.SetBudgetCategoryValid | src/lib/supabase/schema.ts:202-209 | under a valid store, overwriting a budget category keeps integrity exactly when its plan exists and its name fits (or no such category exists) |
| Schema.Unlink | src/lib/supabase/schema.ts:84-98 | setting a reference to null never leaves it pointing at a deleted row, and a reference to a surviving row is kept |
| Schema.DeleteTransactionRows | src/lib/supabase/schema.ts:69-120 | deleting transactions removes exactly the given ids and nothing else |
| Schema.DeleteAccountRows | src/lib/supabase/schema.ts:81-83 | deleting accounts removes exactly those ids, keeps every other account unchanged, cascades to exactly their transactions, and leaves the other tables alone |
| Schema.DeleteCategoryRows | src/lib/supabase/schema.ts:84-86 | deleting categories removes exactly those ids and keeps every other category unchanged; every transaction stays in place with only its category cleared when it named a deleted one |
| Schema.DeleteShoppingItemRows | src/lib/supabase/schema.ts:148-175 | deleting shopping items removes exactly the given ids and nothing else |
| Schema.DeleteShoppingPlanRows | src/lib/supabase/schema.ts:87-160 | deleting shopping plans removes exactly those ids, keeps the other plans unchanged, cascades to exactly their items, and leaves every transaction in place with only its plan reference cleared when it named a deleted plan |
| Schema.DeleteBudgetCategoryRows | src/lib/supabase/schema.ts:93-98 | deleting budget categories removes exactly those ids and keeps the others unchanged; every transaction stays in place with only its connection cleared when it named a deleted category |
| Schema.DeleteBudgetPlanRows | src/lib/supabase/schema.ts:205-209 | deleting budget plans removes exactly those ids and keeps the other plans unchanged; it cascades to exactly their categories, and every transaction stays in place with only its connection to one of those categories cleared |
| Schema.SurvivingTransactions | src/lib/supabase/schema.ts:69-98 | after a user deletion, the transactions left are exactly those on accounts of other users, each with its references to the deleted users' categories, shopping plans and budget categories cleared |
| Schema.DeleteUserRows | src/lib/supabase/schema.ts:15-209 | deleting users removes exactly those ids and keeps the other users; accounts, categories, shopping plans and budget plans are kept exactly when another user owns them, items and budget categories exactly when their plan is kept, and transactions exactly when their account is kept, detached from the deleted rows |
| Schema.DeleteTransactionRowsValid | src/lib/supabase/schema.ts:69-120 | deleting transactions keeps the store's integrity |
| Schema.DeleteAccountRowsValid | src/lib/supabase/schema.ts:81-83 | the account cascade keeps the store's integrity |
| Schema.DeleteCategoryRowsValid | src/lib/supabase/schema.ts:84-86 | the category set-null rule keeps the store's integrity |
| Schema.DeleteShoppingItemRowsValid | src/lib/supabase/schema.ts:148-175 | deleting items keeps the store's integrity |
| Schema.DeleteShoppingPlanRowsValid | src/lib/supabase/schema.ts:87-160 | the shopping-plan cascade and set-null rules keep the store's integrity |
| Schema.DeleteBudgetCategoryRowsValid | src/lib/supabase/schema.ts:93-98 | the budget-category set-null rule keeps the store's integrity |
| Schema.DeleteBudgetPlanRowsValid | src/lib/supabase/schema.ts:205-209 | the budget-plan cascade keeps the store's integrity |
| Schema.DeleteUserRowsValid | src/lib/supabase/schema.ts:15-184 | the user cascade, carried on to the dependants of the deleted rows, keeps the store's integrity |
| Access.Commit | src/lib/supabase/schema.ts:15-220 | a write is accepted exactly when the resulting store keeps the schema's keys, references and column lengths, and then returns its rows; a refusal is a constraint violation that leaves the store as it was; so a write never takes a valid store to an invalid one |
| Accounts.AccountRowsSound | src/server/accounts.ts:12-43 | every listed row is the summary of one of the user's accounts |
| Accounts.AccountRowsCover | src/server/accounts.ts:12-43 | every account of the user is listed |
| Accounts.AccountRowsQuiet | src/server/accounts.ts:18-29 | an account without transactions lists a count of 0 and a total of 0 |
| Accounts.GetAccounts | src/server/accounts.ts:12-43 | without a session, Unauthorized; otherwise exactly one row per account of the user, each carrying the count and sum of that account's transactions |
| Accounts.GetAccount | src/server/accounts.ts:45-58 | at most one row, which is the requested account and the caller's; with unique keys, a row comes back exactly when the caller owns the account |
| Accounts.CreateAccount | src/server/accounts.ts:60-78 | on success, exactly the new account is added, with its balance in miliunits and the caller as owner; on failure the store is unchanged |
| Accounts.CreateAccountAccepted | src/server/accounts.ts:60-78 | creating an account succeeds exactly when the id is new, the user exists and the name fits 256 characters |
| Accounts.Renamed | src/server/accounts.ts:80-96 | the updated account keeps its owner and creation time, takes the form's name, and stores a balance that converts back to the form's |
| Accounts.UpdateAccount | src/server/accounts.ts:80-96 | only the caller's account changes, taking the new name and balance, and a success keeps the store's integrity; someone else's account gives an empty result and no change; a refusal changes nothing |
| Accounts.UpdateAccountAccepted | src/server/accounts.ts:80-96 | updating the caller's account succeeds exactly when the new name fits 256 characters |
| Accounts.UpdateAccountValid | src/server/accounts.ts:80-96 | updating an account keeps the store's integrity |
| Accounts.DeleteAccount | src/server/accounts.ts:98-110 | deleting the caller's account returns it, removes it and exactly its transactions, keeps every other account and transaction unchanged, and changes nothing else; any other account gives an empty result |
| Accounts.DeleteAccountValid | src/server/accounts.ts:98-110 | deleting an account keeps the store's integrity |
| Accounts.OwnedTransactions | src/server/accounts.ts:18-29 | a transaction's account is among the listed accounts exactly when the caller owns it |
| Accounts.AccountTotalsAddUp | src/server/accounts.ts:12-43 | the listed totals add up to the net amount of all transactions on the caller's accounts |
| Accounts.AccountCountsAddUp | src/server/accounts.ts:12-43 | the listed counts add up to the number of transactions on the caller's accounts |
| Categories.CategoryRowsSound | src/server/categories.ts:12-43 | every listed row is the summary of one of the user's categories |
| Categories.CategoryRowsCover | src/server/categories.ts:12-43 | every category of the user is listed |
| Categories.CategoryRowsQuiet | src/server/categories.ts:18-29 | a category without transactions lists a count of 0 and a total of 0 |
| Categories.GetCategories | src/server/categories.ts:12-43 | without a session, Unauthorized; otherwise exactly one row per category of the user, each carrying the count and sum of its transactions |
| Categories.GetCategory | src/server/categories.ts:45-58 | at most one row, which is the requested category and the caller's; with unique keys, a row comes back exactly when the caller owns it |
| Categories.CreateCategory | src/server/categories.ts:60-75 | on success, exactly the new category is added with the caller as owner; on failure the store is unchanged |
| Categories.CreateCategoryAccepted | src/server/categories.ts:60-75 | creating a category succeeds exactly when the id is new, the user exists and the name fits 256 characters |
| Categories.UpdateCategory | src/server/categories.ts:77-90 | only the caller's category changes, taking the new name, and a success keeps the store's integrity; any other category gives an empty result and no change; a refusal changes nothing |
| Categories.UpdateCategoryAccepted | src/server/categories.ts:77-90 | renaming the caller's category succeeds exactly when the new name fits 256 characters |
| Categories.UpdateCategoryValid | src/server/categories.ts:77-90 | renaming a category keeps the store's integrity |
| Categories.DeleteCategory | src/server/categories.ts:92-104 | deleting the caller's category returns it and removes it, keeps the other categories unchanged, and keeps every transaction in place with only its category cleared when it was the deleted one |
| Categories.DeleteCategoryRowsUnlinks | src/lib/supabase/schema.ts:84-86 | after a category is deleted, the same transactions exist, none refers to it, and those that did not refer to it are unchanged |
| Categories.DeleteCategoryValid | src/server/categories.ts:92-104 | deleting a category keeps the store's integrity |
| Categories.CategoryKeys | src/server/categories.ts:18-29 | the caller's category keys, as the nullable column holds them, have no duplicates, and a transaction's category is among them exactly when it is set and the caller owns it |
| Categories.OwnedKeys | src/server/categories.ts:18-29 | a category reference is among the caller's category ids exactly when it names a category the caller owns |
| Categories.CategoryTotalsAddUp | src/server/categories.ts:12-43 | the listed totals add up to the net amount of all transactions in the caller's categories |
| Categories.CategoryCountsAddUp | src/server/categories.ts:12-43 | the listed counts add up to the number of transactions in the caller's categories |
| Transactions.Listing | src/server/transactions.ts:53-85 | a listing is newest first, has one entry per selected transaction, and shows exactly the selected transactions |
| Transactions.GetTransactions | src/server/transactions.ts:53-85 | without a session, Unauthorized; otherwise exactly the transactions on the caller's accounts, one entry per transaction, newest first |
| Transactions.GetAccountTransactions | src/server/transactions.ts:119-153 | the transactions of the given account, one entry per transaction, newest first, and nothing when the caller does not own the account |
| Transactions.GetBudgetPlanTransactions | src/server/transactions.ts:155-202 | the transactions connected to a category of the caller's plan, on any user's account, one entry per transaction, newest first; nothing when the caller does not own the plan |
| Transactions.GetTransaction | src/server/transactions.ts:87-117 | at most one row, the requested transaction on an account of the caller; with unique keys, a row comes back exactly when the caller owns it |
| Transactions.GetTransactionBudget | src/server/transactions.ts:204-224 | at most one link, naming the budget category the transaction is connected to and that category's plan; there is one exactly when such a category and plan exist, whoever owns them |
| Transactions.GetTransactionShopping | src/server/transactions.ts:226-240 | the account of every transaction linked to the shopping plan, one entry per such transaction, whoever owns the plan |
| Transactions.ShoppingPlanAmountMatchesItems | src/server/transactions.ts:36-51 | the shopping amount a listing shows for a plan equals the sum of item totals that `getShoppingPlanItems` returns for the same plan and caller (0 for a plan that is not theirs), and for the caller's plan it equals the total on every row of `getShoppingPlanSummary` |
| Transactions.SetTransactionValid | src/lib/supabase/schema.ts:69-120 | under a valid store, overwriting a transaction keeps integrity exactly when the new references resolve and the description fits 256 characters |
| Transactions.CreateTransaction | src/server/transactions.ts:403-422 | on success, exactly the new transaction is added, with its amount in miliunits and no shopping or budget link; on failure the store is unchanged |
| Transactions.CreateTransactionAccepted | src/server/transactions.ts:403-422 | creating a transaction succeeds exactly when the id is new, the account and category exist, whoever owns them, and the description fits 256 characters |
| Transactions.CreateTransactionShopping | src/server/transactions.ts:424-450 | a plan the caller does not own fails the request; on success the new transaction is dated and titled like the plan, links to it, has amount 0, and takes the form's plan id as its account |
| Transactions.UpdateTransaction | src/server/transactions.ts:452-488 | the caller's transaction takes the form's values and keeps its links; any other transaction gives an empty result and no change |
| Transactions.UpdateTransactionAccepted | src/server/transactions.ts:452-488 | updating the caller's transaction succeeds exactly when the new account and category exist, even if another user owns that account, and the description fits 256 characters |
| Transactions.UpdateTransactionBudget | src/server/transactions.ts:490-521 | the caller's transaction is connected to the given budget category, nothing else changes, and a success keeps the store's integrity; any other transaction gives an empty result |
| Transactions.UpdateTransactionBudgetAccepted | src/server/transactions.ts:490-521 | connecting the caller's transaction succeeds exactly when the budget category exists, whoever owns it |
| Transactions.UpdateTransactionShopping | src/server/transactions.ts:523-554 | the caller's transaction is linked to the given shopping plan, nothing else changes, and a success keeps the store's integrity; any other transaction gives an empty result |
| Transactions.UpdateTransactionShoppingAccepted | src/server/transactions.ts:523-554 | linking the caller's transaction succeeds exactly when the shopping plan exists, whoever owns it |
| Transactions.DeleteTransactions | src/server/transactions.ts:556-582 | exactly the requested transactions of the caller are returned and removed, each once, so the returned ids are the ids that are gone; the others stay, and no match means no change |
| Transactions.DeleteTransactionsValid | src/server/transactions.ts:556-582 | the bulk delete keeps the store's integrity |
| Transactions.DeleteTransaction | src/server/transactions.ts:584-609 | the caller's transaction is returned and removed, the others stay; any other transaction gives an empty result |
| Transactions.DeleteTransactionValid | src/server/transactions.ts:584-609 | deleting a transaction keeps the store's integrity |
| Summaries.ScopedMembers | src/server/transactions.ts:252-269 | the summary scope holds exactly the caller's transactions, on the chosen account if any, dated from the start day's midnight to the end day's midnight |
| Summaries.InScopeWithinWholeDays | src/server/transactions.ts:252-269 | every transaction in the scope as written is in the whole-day scope, and the two agree on every transaction dated before the end day |
| Summaries.GetIncomeExpenseSummary | src/server/transactions.ts:242-299 | one row; income is never negative, expense never positive, and remaining is their sum and the net amount of the scope; an empty scope gives zeros |
| Summaries.IncomeExpenseSplit | src/server/transactions.ts:242-299 | income is the sum of the positive amounts and expense the sum of the negative ones |
| Summaries.ExpensesMembers | src/server/transactions.ts:301-348 | the category summary counts exactly the negative transactions of the scope that have a category |
| Summaries.SpendingNames | src/server/transactions.ts:301-348 | each category name that appears among the expenses is listed once, in decreasing order of spend |
| Summaries.NameTotalPositive | src/server/transactions.ts:301-348 | every listed name has a positive spend |
| Summaries.ExpenseNamePositive | src/server/transactions.ts:301-348 | the category name of any counted expense has a positive total, that expense being part of it |
| Summaries.ExpensesSpent | src/server/transactions.ts:301-348 | every counted expense contributes a positive amount |
| Summaries.SpendingRows | src/server/transactions.ts:301-348 | one row per listed name, carrying that name's total spend |
| Summaries.SpendingRowsPositive | src/server/transactions.ts:301-348 | every row's amount is positive |
| Summaries.SpendingRowsOrdered | src/server/transactions.ts:301-348 | rows run from the largest spend down, and no name repeats |
| Summaries.SpendingRowsNamed | src/server/transactions.ts:301-348 | every row's name is the category name of some expense |
| Summaries.SpendingRowsCover | src/server/transactions.ts:301-348 | every expense's category name has a row |
| Summaries.GetCategorySummary | src/server/transactions.ts:301-348 | spend per category name: positive amounts, largest first, one row per name that occurs, each the total of that name's expenses |
| Summaries.CategorySummaryAddsUp | src/server/transactions.ts:301-348 | the rows add up to the total spend of the scope |
| Summaries.ActiveDays | src/server/transactions.ts:350-401 | the days on which a scoped transaction falls, each once and in increasing order |
| Summaries.DaySigns | src/server/transactions.ts:350-401 | a day's income is never negative and its expense never positive |
| Summaries.ActiveDayInRange | src/server/transactions.ts:350-401 | every active day lies in the period and has a scoped transaction |
| Summaries.DayRows | src/server/transactions.ts:350-401 | one row per active day, with that day's income and expense |
| Summaries.DayRowsSound | src/server/transactions.ts:350-401 | every row is an in-range day with a scoped transaction, and carries that day's totals |
| Summaries.DayRowsCover | src/server/transactions.ts:350-401 | every scoped transaction's day has a row |
| Summaries.GetIncomeExpenseSummaryByDate | src/server/transactions.ts:350-401 | days in increasing order; exactly the days with scoped transactions; each with its income and expense |
| Summaries.DailyTotalsAddUp | src/server/transactions.ts:242-401 | the daily incomes and expenses add up to the period summary's income and expense |
| Summaries.ChartShowsEveryDay | src/lib/utils.ts:101-141 | once the scope has a transaction, the gap-filled series has one point per day of the range, each with that day's totals; an empty scope gives no series |
| Summaries.NoActiveDays | src/server/transactions.ts:350-401 | no scoped transactions means no day rows |
| Summaries.ChartPoint | src/lib/utils.ts:101-141 | with some scoped transaction, the series point for an in-range day carries that day's totals |
| Summaries.SomeActiveDay | src/server/transactions.ts:350-401 | some scoped transaction means some day row |
| Summaries.DayPoint | src/lib/utils.ts:101-141 | the filled point for any day carries that day's totals: the day's own row when it has one, and zeros otherwise, because such a day has no transaction in scope |
| Summaries.NoonStoreValid | src/lib/supabase/schema.ts:15-104 | the store used to show the end-day cut (one user, one account, one transaction at noon) is consistent |
| Summaries.NoonOnEndDay | src/server/transactions.ts:266-267 | that store's transaction falls on the last day of the one-day range |
| Summaries.EndDayDroppedFromSummary | src/server/transactions.ts:242-401 | as written, the one-day income/expense summary of that store is all zeros and its chart series is empty |
| Summaries.EndDayKeptByWholeDays | src/server/transactions.ts:252-269 | the whole-day scope of that store holds its transaction, whose 5.0 a whole-day summary would report |
| ShoppingPlans.PlanRows | src/server/shopping-plans.ts:17-53 | a plan yields one summary row per linked transaction, or one row when there is none; each row carries the plan's date, title, item count and item total |
| ShoppingPlans.PlanRowsLinks | src/server/shopping-plans.ts:45-49 | a row has no transaction exactly when the plan has none linked; every transaction a row names is linked to the plan, and every linked transaction is named by some row |
| ShoppingPlans.GetShoppingPlansSummary | src/server/shopping-plans.ts:17-53 | the summary rows of exactly the caller's plans; with unique plan ids, the rows carrying a plan's id are exactly that plan's rows (one per linked transaction, or one when none is linked) |
| ShoppingPlans.GetShoppingPlanSummary | src/server/shopping-plans.ts:55-95 | the summary rows of the requested plan when the caller owns it, and nothing otherwise |
| ShoppingPlans.GetShoppingPlan | src/server/shopping-plans.ts:97-112 | at most one row, the caller's requested plan; with unique keys, a row comes back exactly when the caller owns it |
| ShoppingPlans.CreateShoppingPlan | src/server/shopping-plans.ts:114-132 | on success, exactly the new plan is added with the caller as owner; on failure the store is unchanged |
| ShoppingPlans.CreateShoppingPlanAccepted | src/server/shopping-plans.ts:114-132 | creating a plan succeeds exactly when the id is new, the user exists and the title fits 256 characters |
| ShoppingPlans.UpdateShoppingPlan | src/server/shopping-plans.ts:134-157 | the caller's plan takes the new date and title, nothing else changes, and a success keeps the store's integrity; any other plan gives an empty result; a refusal changes nothing |
| ShoppingPlans.UpdateShoppingPlanAccepted | src/server/shopping-plans.ts:134-157 | updating the caller's plan succeeds exactly when the new title fits 256 characters |
| ShoppingPlans.UpdateShoppingPlanValid | src/server/shopping-plans.ts:134-157 | updating a plan keeps the store's integrity |
| ShoppingPlans.DeleteShoppingPlan | src/server/shopping-plans.ts:159-173 | deleting the caller's plan returns it, removes it and exactly its items, keeps the other plans unchanged, and keeps every transaction in place with only its link cleared when it named the deleted plan |
| ShoppingPlans.DeleteShoppingPlanRowsUnlinks | src/lib/supabase/schema.ts:87-92 | after a plan is deleted, the same transactions exist, none links to it, and those that did not link to it are unchanged |
| ShoppingPlans.DeleteShoppingPlanValid | src/server/shopping-plans.ts:159-173 | deleting a plan keeps the store's integrity |
| ShoppingItems.DefaultShoppingItemConsistent | src/lib/supabase/schema.ts:152-157 | the column defaults give an item whose total matches its amount, quantity, discount and tax |
| ShoppingItems.NewItem | src/server/shopping-items.ts:73-95 | a new item has the form's values and the total computed from them |
| ShoppingItems.Revised | src/server/shopping-items.ts:97-137 | a revised item keeps its plan and creation time, takes the form's values and recomputes its total |
| ShoppingItems.GetShoppingPlanItems | src/server/shopping-items.ts:13-38 | exactly the items of the requested plan, one entry per item, when the caller owns it, and nothing otherwise |
| ShoppingItems.GetShoppingPlanItem | src/server/shopping-items.ts:40-71 | at most one row, the requested item in a plan of the caller; with unique keys, a row comes back exactly when the caller owns the item's plan |
| ShoppingItems.CreateShoppingPlanItem | src/server/shopping-items.ts:73-95 | on success, exactly the new item is added with its computed total; on failure the store is unchanged |
| ShoppingItems.CreateShoppingPlanItemAccepted | src/server/shopping-items.ts:73-95 | adding an item succeeds exactly when the id is new, the plan exists, whoever owns it, and the name fits 256 characters |
| ShoppingItems.CreateShoppingPlanItemAddsToPlan | src/server/shopping-items.ts:73-95 | a successful insert adds one item to its plan, raises the plan's item total by the new item's total, and leaves every other plan's items unchanged |
| ShoppingItems.CreateShoppingPlanItemKeepsTotals | src/server/shopping-items.ts:82-83 | inserting items keeps every stored total consistent with its columns |
| ShoppingItems.UpdateShoppingPlanItem | src/server/shopping-items.ts:97-137 | only the caller's item changes, taking the form's values and a recomputed total, and a success keeps the store's integrity; any other item gives an empty result; a refusal changes nothing |
| ShoppingItems.UpdateShoppingPlanItemAccepted | src/server/shopping-items.ts:97-137 | updating the caller's item succeeds exactly when the new name fits 256 characters |
| ShoppingItems.UpdateShoppingPlanItemValid | src/server/shopping-items.ts:97-137 | updating an item keeps the store's integrity |
| ShoppingItems.UpdateShoppingPlanItemKeepsTotals | src/server/shopping-items.ts:97-137 | updating items keeps every stored total consistent with its columns |
| ShoppingItems.DeleteShoppingPlanItems | src/server/shopping-items.ts:139-170 | exactly the requested items of the caller are returned and removed, each once, so the returned ids are the ids that are gone; the others stay, and no match means no change |
| ShoppingItems.DeleteShoppingPlanItemsValid | src/server/shopping-items.ts:139-170 | the bulk delete keeps the store's integrity |
| ShoppingItems.DeleteShoppingPlanItem | src/server/shopping-items.ts:172-202 | the caller's item is returned and removed, the others stay; any other item gives an empty result |
| ShoppingItems.DeleteShoppingPlanItemValid | src/server/shopping-items.ts:172-202 | deleting an item keeps the store's integrity |
| BudgetCategories.CategoriesOfMembers | src/server/budget-categories.ts:13-37 | a plan's categories are exactly the stored categories that name the plan |
| BudgetCategories.GetBudgetPlanCategories | src/server/budget-categories.ts:13-37 | exactly the categories of the requested plan, one entry per category, when the caller owns it, and nothing otherwise |
| BudgetCategories.GetBudgetPlanCategory | src/server/budget-categories.ts:39-67 | at most one row, the requested category in a plan of the caller; with unique keys, a row comes back exactly when the caller owns its plan |
| BudgetCategories.NewCategory | src/server/budget-categories.ts:69-90 | a new category has the form's name, belongs to the plan, and stores an amount whose conversion from miliunits gives the form's amount |
| BudgetCategories.CreateBudgetPlanCategory | src/server/budget-categories.ts:69-90 | on success, exactly the new category is added; on failure the store is unchanged |
| BudgetCategories.CreateBudgetPlanCategoryAccepted | src/server/budget-categories.ts:69-90 | adding a category succeeds exactly when the id is new, the plan exists, whoever owns it, and the name fits 256 characters |
| BudgetCategories.UpdateBudgetPlanCategory | src/server/budget-categories.ts:92-125 | only the caller's category changes, taking the new name and an amount that converts back to the form's, and a success keeps the store's integrity; any other category gives an empty result; a refusal changes nothing |
| BudgetCategories.UpdateBudgetPlanCategoryAccepted | src/server/budget-categories.ts:92-125 | updating the caller's category succeeds exactly when the new name fits 256 characters |
| BudgetCategories.UpdateBudgetPlanCategoryValid | src/server/budget-categories.ts:92-125 | updating a category keeps the store's integrity |
| BudgetCategories.DeleteBudgetCategoryRowsUnlinks | src/lib/supabase/schema.ts:93-98 | after budget categories are deleted, the same transactions exist, none is connected to a deleted category, and the others are unchanged |
| BudgetCategories.DeleteBudgetCategories | src/server/budget-categories.ts:127-155 | exactly the requested categories of the caller are returned and removed, each once, so the returned ids are the ids that are gone; every transaction stays in place with only its connection cleared when it named one of them, so the unconnected ones are unchanged; no match means no change |
| BudgetCategories.DeleteBudgetCategoriesValid | src/server/budget-categories.ts:127-155 | the bulk delete keeps the store's integrity |
| BudgetCategories.DeleteBudgetPlanCategory | src/server/budget-categories.ts:157-184 | the caller's category is returned and removed, the others stay, and every transaction stays in place with only its connection to that category cleared |
| BudgetCategories.DeleteBudgetPlanCategoryValid | src/server/budget-categories.ts:157-184 | deleting a category keeps the store's integrity |
| BudgetPlans.Lines | src/server/budget-plans.ts:22-61 | one line per category of the plan, ordered by name, with the budgets adding up to the categories' amounts |
| BudgetPlans.LinesMembers | src/server/budget-plans.ts:22-61 | every line is a category of the plan with its spend, and every category of the plan has its line |
| BudgetPlans.PlanLine | src/server/budget-plans.ts:45-61 | a plan's row carries its id and title, lines ordered by name, and a total equal to the sum of their budgets; a plan without categories has total 0 and no lines |
| BudgetPlans.SummaryRowsMembers | src/server/budget-plans.ts:16-73 | one row per plan of the user, and every row is one of them |
| BudgetPlans.SummaryRowsOrdered | src/server/budget-plans.ts:70 | with unique keys, the rows run from the newest plan to the oldest |
| BudgetPlans.GetBudgetPlansSummary | src/server/budget-plans.ts:16-73 | without a session, Unauthorized; otherwise exactly one row per plan of the caller, newest first |
| BudgetPlans.GetBudgetPlans | src/server/budget-plans.ts:75-87 | exactly the caller's plans, one entry per plan |
| BudgetPlans.Options | src/server/budget-plans.ts:89-118 | one pick-list entry per category of the plan |
| BudgetPlans.OptionsMembers | src/server/budget-plans.ts:89-118 | every entry shows a category of the plan with its id, and every such category has one |
| BudgetPlans.OptionsOrdered | src/server/budget-plans.ts:89-118 | with unique keys, the entries run from the newest category to the oldest |
| BudgetPlans.GetBudgetPlanCategories | src/server/budget-plans.ts:89-118 | one entry per plan of the caller that has categories (no two with the same plan id), each listing them; no plan without categories appears |
| BudgetPlans.GetBudgetPlan | src/server/budget-plans.ts:120-133 | at most one row, the caller's requested plan; with unique keys, a row comes back exactly when the caller owns it |
| BudgetPlans.CreateBudgetPlan | src/server/budget-plans.ts:135-150 | on success, exactly the new plan is added with the caller as owner; on failure the store is unchanged |
| BudgetPlans.CreateBudgetPlanAccepted | src/server/budget-plans.ts:135-150 | creating a plan succeeds exactly when the id is new, the user exists and the title fits 256 characters |
| BudgetPlans.UpdateBudgetPlan | src/server/budget-plans.ts:152-168 | only the caller's plan changes, taking the new title, and a success keeps the store's integrity; any other plan gives an empty result; a refusal changes nothing |
| BudgetPlans.UpdateBudgetPlanAccepted | src/server/budget-plans.ts:152-168 | renaming the caller's plan succeeds exactly when the new title fits 256 characters |
| BudgetPlans.UpdateBudgetPlanValid | src/server/budget-plans.ts:152-168 | renaming a plan keeps the store's integrity |
| BudgetPlans.DeleteBudgetPlanRowsUnlinks | src/lib/supabase/schema.ts:205-209 | after budget plans are deleted, the same transactions exist, none is connected to a category of a deleted plan, and the others are unchanged |
| BudgetPlans.DeleteBudgetPlan | src/server/budget-plans.ts:170-182 | the caller's plan is returned and removed together with exactly its categories, the other plans and categories stay unchanged, and every transaction stays in place with only its connection to one of those categories cleared |
| BudgetPlans.DeleteBudgetPlanValid | src/server/budget-plans.ts:170-182 | deleting a plan keeps the store's integrity |

## Left out

- The HTTP routes, request validation, the authentication provider and the session cookie are not modelled. The session is a parameter.
- Uuid generation and `now()` are parameters of the inserts.
- Queries return whole rows instead of the selected columns. Renamed output fields are not modelled either.
- Money is an exact `real`. `bigint` and `integer` columns accept only whole numbers, but non-integral or out-of-range values and JavaScript floating point are not modelled. An item's quantity is an `int`.
- Time zones are not modelled: days are UTC days of integer seconds. The `date-fns` parsing and formatting of dates is not modelled.
- String order is code-point order. Database collation is not modelled.
- The order of rows from unordered queries is not fixed: contracts speak of membership, not of positions.
- A `null` `created_at` on a budget category is not modelled: the column is always set.
- Bulk deletes with an empty id list are modelled as deleting nothing. The behaviour of `inArray` with an empty list is not modelled.
- The top-three-plus-"Other" grouping of the category summary and the previous-period comparison live in the route file `src/app/api/[[...route]]/summary.ts`, which is not part of this model. Only `calculatePercentageDifference` is modelled.
- `coalesce` and `jsonAggBuildObject` in `src/lib/utils.ts` are SQL builders. Their effect is modelled inside the queries that use them.
- Utils.FillMissingDate: follows the code, which returns an empty series for no entries, rather than a zero-filled range. It requires the start day not to be after the end day when there are entries; what the date library does with a reversed range is not modelled.
- Utils.FillMissingDateGapFree: proved without an explicit argument, as a direct consequence of the contract of `FillMissingDate`.
- ShoppingItems.CreateShoppingPlanItemKeepsTotals: proved without an explicit argument, as a direct consequence of the contract of `CreateShoppingPlanItem`.
- Transactions.CreateTransactionShopping: the success contract assumes unique plan keys. Its failure on a plan with no summary row is stated only for plans the caller does not own.
- ShoppingPlans.UpdateShoppingPlan: returns one empty entry per updated row. The source's `returning({ shoppingPlansCols })` nests the columns under one key, and that shape is not modelled.
- Text lengths are counted in `char`s of the model's strings. How Postgres counts the characters of a multi-byte string is not modelled.
- The `Update*Valid` lemmas (accounts, categories, shopping plans, items, budget plans and budget categories) follow directly from `Access.Commit`, through which every update goes.
- The whole-day range (`Summaries.InScopeWholeDays`) is modelled only as a scope, to relate it to the code's filter. The summaries themselves follow the code.
- Transaction listings show account, category and budget names that are derived from the linked rows. Only the transactions themselves are stated about them.

## Findings

| source | as written | input that shows it | evidently intended | confidence | as-written member | corrected member |
|---|---|---|---|---|---|---|
| src/server/transactions.ts:266-267 | the period filter compares a transaction's timestamp with the end date formatted as a day, that is, its midnight (the same filter is at 327-328 and 374-375) | a one-day range (day 20000) and a transaction of 5.0 at noon that day: the income/expense summary reports zeros and the chart is empty | every transaction whose day lies between the start and end days, the end day included, is counted | not executed | Summaries.EndDayDroppedFromSummary | Summaries.InScopeWithinWholeDays |

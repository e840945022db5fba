# SpendSmart core, modelled in Dafny

SpendSmart is a personal-finance application. It has an Express/Mongoose backend and a React frontend. This project models the business rules of its core:

- **budgets:** a monthly limit per category, a cap of five active budgets, and the spending, percentage and alert reported for each one;
- **savings goals:** trimmed unique names, a soft delete, progress, an overdue status and a monthly quota;
- **transactions:** create, update and delete; a filtered, date-sorted, paged listing; a per-category summary of a month;
- **the monthly summary;**
- **categories and their listing;**
- **user accounts:** registration, login, the six-digit reset code, and the password history;
- **the `isAuth` middleware and the token it checks;**
- **the client-side validation of the registration and login forms,** their submit rules, and how a failed registration's messages are spread over the fields.

How the model maps onto the code:

- **Tables.** Each collection the controllers write is a `seq` field of a class whose methods are the endpoints: `Budgets.BudgetStore`, `Savings.GoalStore`, `Transactions.Ledger` and `Users.UserStore`.
- **Checks.** Every method states its error answers in the order the code checks them, and the whole new table.
- **Read-only endpoints** are functions over the tables. The listings, the two summaries and the category listing are of this kind.
- **Forms.** The two frontend forms are classes, `RegisterForm.RegistrationForm` and `LoginForm.LoginPanel`. Their fields, shown messages, server error and `isValid` flag are fields of the class. The requests they post and the tokens they hand to `onSuccess` are recorded as sequences.

How the model represents the environment:

- **Money** is an integer number of cents. Decimal128 sums of two-decimal amounts are exact.
- **`toFixed` followed by `parseFloat`** is rounding to the nearest unit, with ties going away from zero (`Base.RoundDiv`). Budget percentages are in tenths of a percent (`toFixed(1)`), savings progress in hundredths of a percent (`toFixed(2)`), and quotas in cents.
- **Dates** are `Calendar.Instant`s: a month counted from year 0 in server-local time, plus the milliseconds elapsed inside that month.
  - `new Date(y, m, 1)` follows JavaScript. Months outside 0..11 carry into the year, and years 0..99 mean 1900..1999.
- **Strings** are sequences of Unicode scalar values (`seq<char>`). Where JavaScript counts UTF-16 code units, `Text.Utf16Length` counts them, two for a character above U+FFFF.
  - `trim`, `split`, `includes`, `startsWith` and `length` are written out in `Text`.
  - Each regular expression of the forms is a predicate over characters.
- **Database queries** are folds over the sequences, with Mongoose's own rules:
  - a filter key that is `undefined` is dropped from the filter;
  - `findOne` returns the first match in table order;
  - a failed schema validation or a unique-index violation is a 500;
  - `limit(0)` means no limit;
  - `sort` yields some permutation ordered by the key (`Sorting.SortBy`).
- **bcrypt** is a sealed value (`Users.Hashed`) that only its own password matches.
- **JWT verification** (signature and expiry) is a function parameter of `Auth.IsAuth`.
- **Inputs from outside** are parameters of the operations. These are the clock, the random reset code, the salt and whether the mail was sent.

## Model

| member | source | states |
|---|---|---|
| Base.FindIndex | Backend/controllers/userController.js:17 | `findOne`: the position of the first record the filter accepts, every earlier record rejected; None only when no record is accepted |
| Base.RemoveAt | Backend/controllers/budgetsController.js:142 | a physical delete keeps every other record, in order, and removes exactly one occurrence |
| Base.RoundDiv | Backend/controllers/budgetsController.js:99 | `(n/d).toFixed(0)` read back: within half a unit of n/d, a tie going away from zero, non-negative for non-negative inputs |
| Base.RoundDivExact | Backend/controllers/savingsGoalsController.js:62-63 | rounding an exact quotient gives that quotient back |
| Calendar.Month | Backend/controllers/savingsGoalsController.js:9 | `getMonth()` lies in 0..11 |
| Calendar.YearMonthDetermineInstant | Backend/controllers/savingsGoalsController.js:9 | `getFullYear()*12 + getMonth()` recovers the month of the date |
| Calendar.BeforeIsStrictTotalOrder | Backend/controllers/savingsGoalsController.js:51 | date comparison is irreflexive, transitive and total on distinct dates |
| Calendar.FirstOfMonth | Backend/controllers/budgetsController.js:10-11 | `new Date(y, m, 1)` is midnight of the 1st; the month overflows into the year (month 12 is January of y+1), two-digit years read as 19yy |
| Calendar.MonthWindow | Backend/controllers/budgetsController.js:10-11 | the window `[new Date(y, mm-1, 1), new Date(y, mm, 1))` spans exactly one calendar month from its first midnight |
| Calendar.InMonthWindowIff | Backend/controllers/budgetsController.js:18 | `$gte start, $lt end` holds exactly for the dates of calendar month mm of year y (both directions) |
| Calendar.DecemberRollsOver | Backend/controllers/budgetsController.js:11 | for mm = 12 the window starts December 1 and ends January 1 of the next year |
| Calendar.MonthWindowsDisjoint | Backend/controllers/budgetsController.js:10-11 | the windows of two different months never share a date |
| Calendar.MonthsBetween | Backend/controllers/savingsGoalsController.js:9 | the year/month difference is the number of calendar months between the two dates |
| Calendar.YearMonthOf | Backend/controllers/budgetsController.js:9 | `month.split('-').map(Number)` yields two non-negative numbers or nothing |
| Calendar.FormatOkParses | Backend/models/budgetsModel.js:31-35 | a month matching `^\d{4}-\d{2}$` reads as its four-digit year and two-digit month |
| Calendar.MonthWindowOf | Backend/controllers/budgetsController.js:9-11 | a `YYYY-MM` string has a window exactly when both pieces read as numbers, always for the stored format |
| Calendar.DecemberWindow | Backend/controllers/budgetsController.js:9-11 | a stored "YYYY-12" spans from December 1 of YYYY to January 1 of YYYY+1 |
| Text.Trim | Backend/controllers/userController.js:41 | `trim()` removes white space at the two ends and nothing else: the result is the slice of the input between a white-space prefix and a white-space suffix, with no white space at either end; the input itself when it has none |
| Text.TrimmedIsFixed | Backend/models/savingsGoalsModel.js:25-29 | a string without white space at either end is its own `trim` |
| Text.TrimIdempotent | Backend/models/savingsGoalsModel.js:25-29 | trimming twice is trimming once |
| Text.Utf16Length | Frontend/src/utils/validators.ts:10-11 | `length` counts between one and two code units per character |
| Text.Split | Backend/middlewares/auth.js:28 | `split(c)` gives one more piece than there are separators, none containing it, and the pieces join back into the input |
| Text.SplitJoin | Backend/middlewares/auth.js:31 | splitting what was joined with a separator gives the pieces back |
| Text.SplitAfterPiece | Backend/middlewares/auth.js:28 | a leading piece without the separator is split off first |
| Text.Decimal | Backend/controllers/userController.js:99 | `toString()` of a natural number is a non-empty string of digits |
| Text.DecimalRoundTrip | Backend/controllers/userController.js:99 | reading back the digits of `String(n)` gives n |
| Text.DecimalLength | Backend/controllers/userController.js:99 | a number in [10^(k-1), 10^k) has k digits |
| Text.NumberOf | Backend/controllers/budgetsController.js:9 | `Number(s)` is a non-negative number exactly for digit strings |
| Sorting.SortBy | Backend/controllers/categoryController.js:9 | `sort` gives a permutation of its input ordered by the key |
| Sorting.KeptPrecedeDropped | Backend/controllers/summaryController.js:70-71 | after a sort, every element kept by `limit(n)` precedes, in the order, every element it drops |
| Categories.ParseKind | Backend/models/categoryModel.js:10-12 | the enum accepts exactly 'ingreso' and 'gasto' |
| Categories.ParseKindName | Backend/models/categoryModel.js:10-12 | every kind's name is accepted as that kind |
| Categories.NewCategory | Backend/models/categoryModel.js:3-15 | a category saves iff its name is non-empty and `appliesTo` is absent or in the enum; the default is 'gasto'; a failure is a 500 |
| Categories.NameLeTotal | Backend/controllers/categoryController.js:9 | the name order relates every pair |
| Categories.NameLeTransitive | Backend/controllers/categoryController.js:9 | the name order is transitive |
| Categories.NameLeAntisymmetric | Backend/controllers/categoryController.js:9 | names ordered both ways are equal |
| Categories.ByName | Backend/controllers/categoryController.js:9 | `{ name: 1 }` is a total preorder |
| Categories.Refs | Backend/controllers/categoryController.js:7-9 | the projection `_id name` of exactly the categories the filter selects |
| Categories.ListCategories | Backend/controllers/categoryController.js:6-11 | `listCategories` returns a permutation of the selected categories' ids and names, in ascending name order |
| Categories.ListedIff | Backend/controllers/categoryController.js:7 | a category is listed iff it is of the requested kind (any kind when none is given) |
| Categories.AllListedWithoutKind | Backend/controllers/categoryController.js:6-7 | with no `type`, every category is listed |
| Categories.ListingStrictlyIncreasing | Backend/models/categoryModel.js:7 | under the unique index on names, no two listed entries share a name |
| Categories.RefsOccurOnce | Backend/models/categoryModel.js:7 | under the unique index each listed reference comes from exactly one category |
| Categories.SeedCategories | Backend/scripts/seedCategories.js:6-22 | the seed set holds 13 categories |
| Categories.SeedNamesUnique | Backend/scripts/seedCategories.js:6-22 | the seed names are distinct, so the unique index accepts them |
| Transactions.Select | Backend/controllers/summaryController.js:20 | `$match` keeps exactly the transactions the filter accepts |
| Transactions.SelectMultiset | Backend/controllers/summaryController.js:20 | `$match` keeps each accepted transaction as often as it occurs and drops the others |
| Transactions.SelectTotalSnoc | Backend/controllers/summaryController.js:21 | recording one more transaction adds its amount to a `$sum` exactly when the filter accepts it |
| Transactions.SelectNothing | Backend/controllers/summaryController.js:28-29 | a sum over a filter that accepts nothing is 0 |
| Transactions.StoredDescription | Backend/controllers/transactionsController.js:21 | `description \|\| null`: a missing or empty description is stored as null, any other as given |
| Transactions.ApplyPatch | Backend/controllers/transactionsController.js:34-39 | the id and creation time never change; the owner becomes the body's `user_id` when it has one and stays otherwise |
| Transactions.PatchIdempotent | Backend/controllers/transactionsController.js:34-39 | sending the same update twice changes nothing the second time |
| Transactions.HandedOverNotFound | Backend/controllers/transactionsController.js:36-39 | after an update that sets another `user_id`, the former owner no longer finds the transaction |
| Transactions.FindOwned | Backend/controllers/transactionsController.js:37 | the record with this `_id` owned by this user, if there is one |
| Transactions.Ledger.Create | Backend/controllers/transactionsController.js:9-28 | a type outside the enum is a 400 and writes nothing; a missing amount or date is a 500; otherwise exactly one transaction with a fresh id is appended, with null for a falsy category or description |
| Transactions.Ledger.Update | Backend/controllers/transactionsController.js:31-49 | an invalid type is a 500 before the lookup; otherwise only the owned record changes, to its patched version (possibly with another owner), or 404 |
| Transactions.Ledger.Delete | Backend/controllers/transactionsController.js:86-100 | the owned record is physically removed and nothing else changes, and the answer is 'Transacción eliminada'; or 404 with the store unchanged |
| Transactions.BuildFilter | Backend/controllers/transactionsController.js:62-69 | the filter always holds the user; it holds the type only when the type is non-empty, and the category and date bounds as given |
| Transactions.Matching | Backend/controllers/transactionsController.js:65-69 | exactly the transactions of the filter, with the date range inclusive at both ends |
| Transactions.NewestDateFirst | Backend/controllers/transactionsController.js:73 | `{ date: -1 }` is a total preorder that puts newer dates first |
| Transactions.Page | Backend/controllers/transactionsController.js:74-75 | `skip` then `limit`: a contiguous slice; a limit of 0 keeps everything, a negative one its absolute value |
| Transactions.PageOfSorted | Backend/controllers/transactionsController.js:73-75 | a page of a sorted listing is sorted and is a sub-multiset of it |
| Transactions.NewestPage | Backend/controllers/transactionsController.js:71-75 | the page is `skip(skip).limit(limit)` of some ordering of the matches newest date first: of the expected length, newest first, and a sub-multiset of the matches |
| Transactions.SecondPageIsOlder | Backend/controllers/transactionsController.js:73-75 | of two matches with different dates, the second page of size one holds the older |
| Transactions.NewerFirst | Backend/controllers/transactionsController.js:73 | sorted newest date first, two transactions of different dates have one order only |
| Transactions.ListTransactions | Backend/controllers/transactionsController.js:52-83 | `total` counts every match whatever the page; the page is the slice from `(page - 1) * limit` of some ordering of the matches newest date first; a negative skip is a 500 |
| Transactions.CreatedIsListedOnce | Backend/controllers/transactionsController.js:15-22 | a created transaction that matches a filter is listed exactly once |
| Transactions.DeletedIsNotListed | Backend/controllers/transactionsController.js:89-92 | a deleted transaction is found by no filter |
| Transactions.FindGroup | Backend/controllers/transactionsController.js:120-123 | the position of the group with key (category, type), if any |
| Transactions.FindGroupSnoc | Backend/controllers/transactionsController.js:120-123 | a group opened for a new key is found last; other keys are found where they were |
| Transactions.AddToGroups | Backend/controllers/transactionsController.js:120-123 | adding a transaction keeps the keys distinct, opens its key, and adds its amount to that group's total only |
| Transactions.Groups | Backend/controllers/transactionsController.js:120-123 | `$group` by (category, type) gives one row per key |
| Transactions.GroupsTotal | Backend/controllers/transactionsController.js:122 | each group's total is the sum of its transactions' amounts |
| Transactions.GroupsPresent | Backend/controllers/transactionsController.js:120-123 | a group row exists iff some transaction has that category and type |
| Transactions.CategoryLabel | Backend/controllers/transactionsController.js:136 | the looked-up category name, or 'Sin categoría' when there is none |
| Transactions.Project | Backend/controllers/transactionsController.js:125-140 | one row per group, carrying its category label, type and total |
| Transactions.GroupedAt | Backend/controllers/transactionsController.js:145-150 | the dictionary has a key for every category name with a row, each holding both kinds: the last row's total for that kind, or 0 |
| Transactions.SummaryByCategory | Backend/controllers/transactionsController.js:103-157 | a missing year or month is a 400; otherwise the result is the fold of the month's groups of the user |
| Transactions.UncategorizedIsKeyed | Backend/controllers/transactionsController.js:136 | a transaction of the month without a category appears under 'Sin categoría' |
| Budgets.ActiveCountSnoc | Backend/controllers/budgetsController.js:31-34 | the active count grows by one exactly when an active budget of the user is added |
| Budgets.FindActiveTwin | Backend/controllers/budgetsController.js:41-46 | the duplicate probe finds an active budget of the user with that category and month (a missing field drops out), or proves there is none |
| Budgets.FindKey | Backend/models/budgetsModel.js:57 | finds a budget holding the (user, category, month) key whatever its flags, or proves there is none |
| Budgets.FindOwned | Backend/controllers/budgetsController.js:71 | the budget with this `_id` owned by this user, if there is one |
| Budgets.ApplyPatch | Backend/controllers/budgetsController.js:70-74 | the id never changes; the owner and the deleted flag are the body's when it sets them and stay otherwise; valid fields stay valid |
| Budgets.PatchIdempotent | Backend/controllers/budgetsController.js:70-74 | sending the same update twice changes nothing the second time |
| Budgets.HandedOverNotFound | Backend/controllers/budgetsController.js:70-74 | after an update that sets another `user_id`, the former owner no longer finds the budget |
| Budgets.BudgetStore.Create | Backend/controllers/budgetsController.js:27-64 | 409 when five budgets are already active (any month, deleted or not), then 409 for an active duplicate; 500 for a missing or invalid field or a key held by an inactive budget; otherwise exactly one active budget is appended; the store keeps its unique keys |
| Budgets.BudgetStore.Update | Backend/controllers/budgetsController.js:67-81 | validators first (500); then only the owned budget changes, to its patched version (possibly with another owner or deleted), or 404; a clash with another budget's key is a 500 |
| Budgets.BudgetStore.Toggle | Backend/controllers/budgetsController.js:124-136 | flips only `isActive` of the owned budget, with the matching message, or 404; the cap is not checked |
| Budgets.BudgetStore.Delete | Backend/controllers/budgetsController.js:139-149 | physically removes the owned budget, or 404 |
| Budgets.ToggleTwiceRestores | Backend/controllers/budgetsController.js:129 | toggling the same budget twice gives the table back |
| Budgets.AllActiveCounted | Backend/controllers/budgetsController.js:31-34 | when all budgets are active budgets of the user, the count is their number |
| Budgets.ToggleCanExceedCap | Backend/controllers/budgetsController.js:124-131 | toggling a sixth budget back on leaves six active budgets, which create would refuse |
| Budgets.SpentAfterRecording | Backend/controllers/budgetsController.js:8-24 | recording a transaction raises the spending by its amount exactly when it is an expense of that user and category in the month |
| Budgets.NothingSpent | Backend/controllers/budgetsController.js:23 | the spending is 0 when no transaction matches |
| Budgets.SpendingIsInCalendarMonth | Backend/controllers/budgetsController.js:14-19 | a transaction counts for "YYYY-MM" iff it is an expense of the user and category dated in that calendar month |
| Budgets.ListedBudgets | Backend/controllers/budgetsController.js:86-92 | the listing holds exactly the user's active budgets, of the month when one is given |
| Budgets.PercentTenths | Backend/controllers/budgetsController.js:99 | spent/limit*100 rounded to a tenth, 0 for a zero limit |
| Budgets.Enrich | Backend/controllers/budgetsController.js:96-112 | available + spent = limit (it may be negative); the percentage as above; the alert iff active and threshold ≤ percentage |
| Budgets.AlertWhenThresholdReached | Backend/controllers/budgetsController.js:111 | with a positive limit, the alert fires once the threshold's share of the limit is spent |
| Budgets.NoAlertBelowThreshold | Backend/controllers/budgetsController.js:111 | the alert stays off while the rounded percentage is below the threshold |
| Budgets.ScenarioPartlySpent | Backend/controllers/budgetsController.js:96-111 | 85.50 of 500.00 is 17.1% used with 414.50 left, and no alert at 80% |
| Budgets.ScenarioOverThreshold | Backend/controllers/budgetsController.js:96-111 | 160.00 of 200.00 is 80.0% used, which alerts at 75% |
| Budgets.ZeroLimitAlert | Backend/controllers/budgetsController.js:99-111 | a zero limit reports 0%, and alerts only for a threshold of 0 |
| Budgets.ListBudgets | Backend/controllers/budgetsController.js:84-121 | one enriched view per listed budget, in order, with the spending of its own month; a listed budget whose category is gone makes the request a 500 |
| Budgets.EnrichAll | Backend/controllers/budgetsController.js:94-114 | the `map` over the listed budgets, failing iff some category is missing |
| Budgets.ListedOncePerCategory | Backend/models/budgetsModel.js:57 | under the unique index, the listing of one month shows each category at most once |
| Budgets.ListedPositions | Backend/controllers/budgetsController.js:90-92 | the listing keeps the table's order |
| Budgets.Nullish | Backend/controllers/budgetsController.js:157-159 | `??` keeps the previous value for null and undefined and takes a given one |
| Budgets.MergeAlertSettings | Backend/controllers/budgetsController.js:154-161 | each flag is the given value or the previous one; `thresholdEnabled` changes only for a boolean |
| Budgets.MergeAlertSettingsProperties | Backend/controllers/budgetsController.js:154-161 | an empty request changes nothing, and repeating a request changes nothing more |
| Savings.FindLiveNamed | Backend/controllers/savingsGoalsController.js:19-23 | finds a live goal of the user with that name, or proves there is none |
| Savings.FindOwnedLive | Backend/controllers/savingsGoalsController.js:79 | only a live goal of the user with this id is found |
| Savings.DescriptionOrEmpty | Backend/controllers/savingsGoalsController.js:29 | `description \|\| ''` |
| Savings.ApplyPatch | Backend/models/savingsGoalsModel.js:25-29 | the id never changes; the owner and the deleted flag are the body's when it sets them and stay otherwise; a new name is stored trimmed |
| Savings.PatchIdempotent | Backend/controllers/savingsGoalsController.js:78-82 | sending the same update twice changes nothing the second time |
| Savings.PatchedAwayNotFound | Backend/controllers/savingsGoalsController.js:78-82 | after an update that sets another `user_id` or `isDeleted: true`, the former owner no longer finds the goal |
| Savings.GoalStore.Create | Backend/controllers/savingsGoalsController.js:15-40 | a missing name is a 500; a live goal with the trimmed name is a 409; an empty name, or a missing target or date, is a 500; otherwise exactly one goal is appended with the trimmed name, 0 saved and the description or ''; at most one live goal per name |
| Savings.GoalStore.Update | Backend/controllers/savingsGoalsController.js:75-89 | the intended update (the corrected half of the savingsGoalsController.js:78-82 Findings row): validators first (500); deleted goals are never found (404); a patched goal that stays live with the name of another live goal of its owner is a 500; otherwise only that goal changes, possibly to another owner or deleted |
| Savings.GoalStore.Delete | Backend/controllers/savingsGoalsController.js:92-106 | marks the live goal deleted and nothing else, so a second delete is a 404 |
| Savings.AppendKeepsLiveNamesUnique | Backend/models/savingsGoalsModel.js:55 | appending a goal whose name no live goal of the user has keeps live names unique |
| Savings.DeleteAsWritten | Backend/models/savingsGoalsModel.js:55 | flagging a goal deleted fails exactly when the user already has a deleted goal of that name |
| Savings.SecondDeleteOfSameNameFails | Backend/controllers/savingsGoalsController.js:95-99 | create, delete, re-create and delete "Viaje": the second delete is a 500 |
| Savings.IndexesAgreeWhileLive | Backend/models/savingsGoalsModel.js:55 | for an updated goal that stays live, the actual (user_id, name, isDeleted) index and the intended live-only index refuse exactly the same updates |
| Savings.UpdateAsWritten | Backend/controllers/savingsGoalsController.js:78-82 | the update under the actual index: the same 500 and 404 cases, then a 500 exactly when another goal of the owner has the patched name and deleted flag, otherwise only that goal changes |
| Savings.SoftDeletingUpdateFails | Backend/controllers/savingsGoalsController.js:78-82 | a `{ isDeleted: true }` body on a live "Viaje" whose owner already deleted a "Viaje" is a 500 as written, while the intended index lets it through |
| Savings.DeletePreservesLiveUniqueness | Backend/controllers/savingsGoalsController.js:95-99 | the intended soft delete keeps at most one live goal per name |
| Savings.StatusAt | Backend/controllers/savingsGoalsController.js:51 | 'vencida' iff now is strictly after the due date |
| Savings.MonthsLeft | Backend/controllers/savingsGoalsController.js:9 | the month difference clamped at 0 |
| Savings.MonthlyQuota | Backend/controllers/savingsGoalsController.js:7-12 | the whole remainder in the due month or later; otherwise the remainder over the months left plus one, to the cent |
| Savings.QuotaCoversRemaining | Backend/controllers/savingsGoalsController.js:10-11 | when the remainder divides evenly over the months from now to the due month, paying the quota every month covers it exactly |
| Savings.ScenarioQuota | Backend/controllers/savingsGoalsController.js:10-11 | 1000.00 target, 820.00 saved and two months to go gives 60.00 a month |
| Savings.ProgressHundredths | Backend/controllers/savingsGoalsController.js:50 | progress is at most 100%, exactly 100% once the target is reached, 0 for a zero target, and otherwise the rounded percentage |
| Savings.ProgressAtLeastFull | Backend/controllers/savingsGoalsController.js:50 | a reached target rounds to at least 100% before clamping |
| Savings.View | Backend/controllers/savingsGoalsController.js:54-64 | the enriched goal: its stored fields, status, progress and quota |
| Savings.LiveGoalsOf | Backend/controllers/savingsGoalsController.js:45 | exactly the user's non-deleted goals |
| Savings.LiveGoalsInTableOrder | Backend/controllers/savingsGoalsController.js:45 | the listed goals sit at increasing positions of the table, so they come in table order |
| Savings.LiveGoalsCounted | Backend/controllers/savingsGoalsController.js:45 | each of the user's live goals is listed as often as the table holds it, and no other goal is listed |
| Savings.ListGoals | Backend/controllers/savingsGoalsController.js:43-72 | one view per live goal of the user, in order |
| Savings.DeletedGoalNotListed | Backend/controllers/savingsGoalsController.js:45 | a deleted goal is never listed |
| Summary.LargestTotalFirst | Backend/controllers/summaryController.js:64 | `{ total: -1 }` is a total preorder, larger totals first |
| Summary.NewestCreatedFirst | Backend/controllers/summaryController.js:70 | `{ created_at: -1 }` is a total preorder, newest first |
| Summary.ExpenseRows | Backend/controllers/summaryController.js:47-63 | one row per group with its category label, total and count |
| Summary.ExpensesByCategory | Backend/controllers/summaryController.js:45-65 | as intended (see Findings): the rows of the month's expense groups, ordered by total descending |
| Summary.CategoryRowOf | Backend/controllers/summaryController.js:45-65 | every category with an expense in the month has a row; its label is the category name or 'Sin categoría', its total is the sum of those expenses and its count is their number |
| Summary.RowOfGroup | Backend/controllers/summaryController.js:56-63 | the row of a group names its category and holds that group's sum and count |
| Summary.SameFilter | Backend/controllers/summaryController.js:46 | among expenses, grouping by category alone and by category and type agree |
| Summary.WithCategory | Backend/controllers/summaryController.js:69 | `populate`: each recent transaction with its category name |
| Summary.RecentOf | Backend/controllers/summaryController.js:68-72 | the newest ten of the user's transactions: at most 10 of them, newest `created_at` first, and none left out was created after one kept |
| Summary.TotalSavedAfterDelete | Backend/controllers/summaryController.js:75-79 | deleting a live goal removes exactly its savings from the total saved |
| Summary.MonthlySummary | Backend/controllers/summaryController.js:8-94 | as intended (see Findings): a missing or empty month is a 400; otherwise: the month's income and expense, savings = income - expense, the lifetime balance, the expenses by category, the recent transactions and the total saved |
| Summary.MonthlySummaryAsWritten | Backend/controllers/summaryController.js:16-46 | as written: a missing month is a 400; otherwise every aggregate compares the stored ObjectId with the token's string id, so income, expense, savings, balance and total saved are 0 and there are no category rows; the recent transactions are the intended ones |
| Summary.SavedWhereNothing | Backend/controllers/summaryController.js:75-79 | a `$match` on a string user id sums no goal |
| Summary.SummaryAsWrittenIsEmpty | Backend/controllers/summaryController.js:16-42 | on the September sample, as written the report shows 0 income, expense and balance where the intended one shows 3000.00, 1800.00 and 1700.00 |
| Summary.BalanceIndependentOfMonth | Backend/controllers/summaryController.js:33-42 | the lifetime balance does not depend on the month asked for |
| Summary.EmptyMonth | Backend/controllers/summaryController.js:28-29 | a month without movements of the user sums to 0 |
| Summary.SeptemberWindow | Backend/controllers/summaryController.js:13-15 | "2025-09" is the window of September 2025 |
| Summary.SeptemberMonthTotals | Backend/controllers/summaryController.js:19-29 | in the sample data, 3000.00 income and 1800.00 expense in September |
| Summary.SeptemberLifetimeTotals | Backend/controllers/summaryController.js:33-42 | in the sample data, 3500.00 lifetime income and 1800.00 lifetime expense |
| Summary.ScenarioSeptember | Backend/controllers/summaryController.js:28-42 | 1200.00 saved in September, and a balance of 1700.00 that includes the older income |
| Auth.GenerateToken | Backend/middlewares/auth.js:5-20 | the payload is exactly id, full name and email, valid for exactly 1440 minutes |
| Auth.BearerToken | Backend/middlewares/auth.js:24-29 | a token exists iff the header starts with "Bearer "; it is trimmed and holds no space |
| Auth.AcceptedToken | Backend/middlewares/auth.js:31 | a token goes on iff it is non-empty and splits into three '.'-segments, i.e. holds exactly two dots |
| Auth.IsAuth | Backend/middlewares/auth.js:23-45 | a malformed token is a 401 'Token inválido.' and a rejected one a 401 'Token inválido o expirado.', both leaving the request untouched; otherwise `req.user` is the payload and `next` is called once |
| Auth.BearerRoundTrip | Backend/middlewares/auth.js:27-29 | "Bearer " + t is read back as t for any t without white space |
| Auth.CompactHasThreeSegments | Backend/middlewares/auth.js:31 | a compact JWS splits on '.' into its header, body and signature |
| Auth.SignedTokenAccepted | Backend/middlewares/auth.js:27-31 | a signed token sent as "Bearer <token>" reaches verification unchanged |
| Auth.DoubleSpaceRefused | Backend/middlewares/auth.js:27-34 | "Bearer  x" (two spaces) yields an empty token and is refused |
| Users.FindByEmail | Backend/controllers/userController.js:17 | the first user whose email matches (an absent email matches anyone), or none |
| Users.FindByUsername | Backend/controllers/userController.js:28 | a user whose username matches (an absent username matches anyone), or none |
| Users.FindById | Backend/controllers/userController.js:218 | the user with this id, deleted or not |
| Users.RegisterConflict | Backend/controllers/userController.js:17-37 | no conflict iff no user matches by email or username; an email match decides first, with 400 for a deleted user and 409 otherwise |
| Users.MissingRequired | Backend/models/userModel.js:3-27 | the required paths a registration document lacks, in schema order: always `first_name` and `last_name`; `username` exactly when it is absent or empty; `email` exactly when it is absent or empty |
| Users.SchemaMessage | Backend/models/userModel.js:3-27 | the validation message starts "User validation failed: " and lists an entry for each missing path |
| Users.EntriesAppend | Backend/models/userModel.js:3-27 | one more missing path adds exactly one ", path: Path `path` is required." entry at the end of the message |
| Users.RegisterAsWritten | Backend/controllers/userController.js:11-51 | as written, registration never succeeds: a conflict answers as above, and anything else is a 500; with a password and a full name, the 500's message is the validation message for exactly the missing required paths |
| Users.FirstRegistrationRefused | Backend/models/userModel.js:4-11 | even the first complete registration into an empty store is a 500 naming `first_name` and `last_name` |
| Users.FormPostRefused | Frontend/src/app/auth/register.tsx:74-78 | the registration form's own post (full name, email and password, no username) into an empty store is a 500 whose message also names `username` |
| Users.NewUser | Backend/models/userModel.js:28-86 | a new user has the given fields plus the schema defaults: null profile fields, not deleted, no logins, default alert settings, no reset code |
| Users.Login | Backend/controllers/userController.js:55-84 | in order: unknown email 404, deleted user 400, missing password 500, wrong password 404; otherwise a token for the user's id, full name and email, valid for one day (the full name only under the corrected schema; see "## Left out") |
| Users.FindByEmailUnique | Backend/models/userModel.js:18-23 | with unique emails the lookup finds the user holding the email |
| Users.FindByCode | Backend/controllers/userController.js:134 | a user whose code matches and has not expired, or none |
| Users.FindByCodeAsWritten | Backend/controllers/userController.js:134 | as written: with strict queries the filter is empty and finds the first user whatever the code; otherwise it finds nobody |
| Users.ResetLookupAsWrittenDiffers | Backend/controllers/userController.js:102-104 | as written, a user who never asked for a code is reset with any code under strict queries, and one who was just sent a code is refused with it otherwise |
| Users.WithResetPassword | Backend/controllers/userController.js:140-142 | after a reset, no code is accepted for that user |
| Users.UserStore.Register | Backend/controllers/userController.js:11-51 | the corrected registration: email conflicts (400 deleted / 409) before username conflicts (400 / 409), missing fields 500; success iff every field is present and unique, appending one user with the trimmed name and the hashed password; the store stays valid |
| Users.UserStore.Save | Backend/controllers/userController.js:39-50 | once no user matches, each missing or empty field is a 500 that writes nothing; otherwise exactly one user is appended with the trimmed name and the hashed password, and the store stays valid |
| Users.UserStore.ForgotPassword | Backend/controllers/userController.js:88-126 | an unknown email is a 404; otherwise the user gets a six-digit code valid for 3600000 ms, stored even when the mail fails (500) |
| Users.UserStore.ResetPassword | Backend/controllers/userController.js:129-151 | no user with an unexpired matching code is a 400; otherwise that user's password is replaced and no code works on it any more |
| Users.UserStore.ChangePassword | Backend/controllers/userController.js:211-245 | missing fields 400, unknown user 404, wrong current password 401, a reused password 409; otherwise the history grows by exactly one entry holding the old hash |
| Users.UniqueMatchIsFirst | Backend/models/userModel.js:12-23 | with unique emails and usernames, the user found is the only one matching |
| Users.ConflictAnswers | Backend/controllers/userController.js:17-37 | on a valid store each conflict answer is decided by the one user holding the email or username |
| Users.AppendKeepsValid | Backend/models/userModel.js:12-23 | appending a user with a new email and username keeps the unique indexes |
| Users.LoginAfterRegister | Backend/controllers/userController.js:60-79 | a user just added can log in with their password |
| Users.PasswordChangeTakesEffect | Backend/controllers/userController.js:222-237 | after a change the new password logs in, the old one is refused, and going back to it is refused as a reuse |
| Users.CurrentPasswordNotInHistory | Backend/controllers/userController.js:226-234 | the history holds only earlier passwords: "changing" to the current one is accepted once, then refused |
| Users.ResetCodeLifetime | Backend/controllers/userController.js:99-104 | a code works for exactly one hour after it is issued, and not after a reset |
| Users.LoginAfterReset | Backend/controllers/userController.js:140-143 | after a reset the new password logs in and the old one does not |
| Users.MissingUsernameMatchesAnyone | Backend/controllers/userController.js:28-36 | with no username in the request, any non-empty store refuses a new email with a username message |
| Validators.FullNameError | Frontend/src/utils/validators.ts:9-13 | the first failing test of the name chain: required, then under 3 code units, then over 60, then a character outside the class |
| Validators.EmailError | Frontend/src/utils/validators.ts:15-17 | required, then the pattern; no message iff the pattern matches |
| Validators.PasswordError | Frontend/src/utils/validators.ts:19-22 | required, then under 8 code units, then the four kinds of character |
| Validators.ValidateRegister | Frontend/src/utils/validators.ts:1-27 | one message per failing field, that of its chain's first failing test; a confirmation message iff the passwords differ |
| Validators.ValidateLogin | Frontend/src/utils/validators.ts:29-39 | only email and password keys; the email chain, and a password that only has to be non-empty |
| Validators.RegisterAccepts | Frontend/src/utils/validators.ts:1-27 | the record is empty iff every field passes its chain and the passwords agree |
| Validators.EmailHasOneAt | Frontend/src/utils/validators.ts:16 | an accepted address has exactly one '@' and no white space |
| Validators.DomainWithoutDot | Frontend/src/utils/validators.ts:16-17 | an address whose domain has no dot gets the format message |
| Validators.WellFormedRegistration | Frontend/src/utils/validators.ts:1-27 | "Ana Pérez", "ana@correo.com" and "Secreta1!" twice pass |
| Validators.NameAccepted | Frontend/src/utils/validators.ts:9-13 | any name of 3 to 60 characters from the class, within the Basic Multilingual Plane, gets no message |
| Validators.PasswordAccepted | Frontend/src/utils/validators.ts:19-22 | any password of at least 8 characters within the Basic Multilingual Plane, without line terminators, with a lower-case letter, an upper-case letter, a digit and a symbol, gets no message |
| Validators.AccentedCapitalRefused | Frontend/src/utils/validators.ts:12-13 | "Ángel" is refused: upper-case accented vowels are not in the class |
| Validators.PasswordChainOrder | Frontend/src/utils/validators.ts:19-22 | length is checked before strength: eight characters without a symbol are weak, seven are too short |
| RegisterForm.ConfirmError | Frontend/src/app/auth/register.tsx:28-29 | the confirmation is required first, then it must equal the password |
| RegisterForm.ValidateRegisterForm | Frontend/src/app/auth/register.tsx:5-32 | the form's own chains, with the confirmation message iff it is empty or different |
| RegisterForm.AgreesWithShared | Frontend/src/app/auth/register.tsx:13-29 | the form agrees with the shared validator except that an empty confirmation is reported as missing |
| RegisterForm.ValidIffNoMessages | Frontend/src/app/auth/register.tsx:53-59 | `isValid` iff there are no messages: every empty field already has one |
| RegisterForm.FieldOf | Frontend/src/app/auth/register.tsx:84-86 | 'nombre' goes to the name, then 'correo'/'email' to the email, then 'contraseña'/'password' to the password, otherwise nowhere |
| RegisterForm.LastMessageWins | Frontend/src/app/auth/register.tsx:83-88 | a field has a message iff some message routes to it, and it is the last one that does |
| RegisterForm.MessageMapFaithful | Frontend/src/app/auth/register.tsx:83-88 | every recorded message is one the server sent, under the field it routes to |
| RegisterForm.MapMessages | Frontend/src/app/auth/register.tsx:82-87 | the `forEach` loop builds exactly the fold of the messages |
| RegisterForm.ErrorMessages | Frontend/src/app/auth/register.tsx:81 | the server's `messages` when sent, otherwise `[message]` or `['Error al registrarse']` |
| RegisterForm.RegistrationForm.Change | Frontend/src/app/auth/register.tsx:49-65 | one field changes, and the messages and `isValid` follow the new fields |
| RegisterForm.RegistrationForm.Revalidate | Frontend/src/app/auth/register.tsx:50-59 | the validation effect: the messages are those of the current fields, and `isValid` holds exactly when there are none |
| RegisterForm.RegistrationForm.Submit | Frontend/src/app/auth/register.tsx:67-91 | nothing is posted while invalid; otherwise name, email and password are posted; on failure the routed messages replace the shown ones and the first message is the server error only when none was routed |
| RegisterForm.RegistrationForm.ShowFailure | Frontend/src/app/auth/register.tsx:80-89 | the routed messages replace the shown ones; the first message becomes the server error only when none was routed to a field |
| RegisterForm.ServerErrorWhenNothingRouted | Frontend/src/app/auth/register.tsx:89 | the record is empty iff no message routes to a field |
| RegisterForm.UsernameMessageShownUnderName | Frontend/src/app/auth/register.tsx:84 | the backend's "username taken" message is shown under the full-name field |
| LoginForm.LoginValidIff | Frontend/src/app/auth/login.tsx:28-36 | `isValid` iff there are no messages, iff the email matches the pattern and a password is typed |
| LoginForm.ReplyOf | Backend/controllers/userController.js:63-82 | only the 400 body for a deleted user carries a `message`; a success carries the token |
| LoginForm.FailureMessage | Frontend/src/app/auth/login.tsx:53 | the server's message, or 'Error al iniciar sesión' when none is given |
| LoginForm.LoginPanel.Change | Frontend/src/app/auth/login.tsx:28-41 | one field changes, and the messages and `isValid` follow |
| LoginForm.LoginPanel.Submit | Frontend/src/app/auth/login.tsx:43-55 | nothing is posted while invalid; otherwise the form is posted, a token goes to `onSuccess`, and a failure shows the server's message or the generic one |
| LoginForm.LoginFailuresAsShown | Frontend/src/app/auth/login.tsx:53 | an unknown email or wrong password shows only the generic error; a deleted user's message is shown as sent |

How the parts fit together:

- **The registration form posts no username.** Its request carries `full_name`, `email` and `password` (Frontend/src/app/auth/register.tsx:74-78).
  - `User.findOne({ username: undefined })` therefore matches any user.
  - So once one account exists, every registration from the form is refused with a username message (`Users.MissingUsernameMatchesAnyone`).
  - That message mentions "nombre", so the form shows it under the full-name field (`RegisterForm.UsernameMessageShownUnderName`).
- **Login failures show only the generic text.** The login controller answers an unknown email or a wrong password with a body keyed `email` or `password`, not `message`. The form therefore shows 'Error al iniciar sesión' for both (`LoginForm.LoginFailuresAsShown`).

## Left out

- **Database, libraries and the clock:**
  - MongoDB and Mongoose are replaced by in-memory sequences.
  - bcrypt is an abstract sealed value; its cost factor and salt format are not modelled.
  - JWT signing is replaced by the claims it carries, and verification is a parameter.
  - Sending mail is reduced to whether it succeeded.
  - `Date.now()`, `new Date()` and `Math.random()` are parameters.
- **Arithmetic and dates:**
  - Floating point is not modelled. Amounts are cents, and `toFixed` is rounding to the nearest unit with ties away from zero. The binary rounding of doubles at exact ties is not reproduced.
  - Time zones and days within a month are not modelled. A date is a month plus an offset.
  - `Number` is modelled on strings of digits only. Signs, decimals and white space read as not-a-number.
- **Concurrency:** `Promise.all` in `listBudgets` and `changePassword` is treated as a sequential map.
- **Frontend:** rendering, navigation and the layout components are not modelled.
- **`updateAlertSettings`:** only the merge rule (`Budgets.MergeAlertSettings`) is modelled. Saving onto `req.user`, which is the decoded token, is not.
- **Users, outside the core:** the profile endpoints (`getProfile`, `updateProfile`) are not part of this model. The user fields `social_accounts`, `access_history`, `address`, `old_data` and the timestamps are not either.
- **Users, model choices:**
  - The user schema declares neither `resetPasswordToken` nor `resetPasswordExpires` (Backend/models/userModel.js:3-87). `Users.UserStore.ForgotPassword` and `Users.UserStore.ResetPassword` store both, as intended; what the code does instead is a row of "## Findings".
  - Login does not change `total_login_count` or `last_login_at`, and neither does the model.
- **Savings:** no operation increases `current_amount` other than the generic update, and the model adds none.
- **Transaction amounts:** their sign is not constrained. The schema comment calls them positive, but nothing enforces it.
- **Where the code differs from its own comments and design, the model follows the code:**
  - budgets are deleted physically, not softly;
  - a transaction's category is not checked to exist;
  - re-activating a budget with a toggle is not checked against the cap of five (`Budgets.ToggleCanExceedCap`).
- **Module wiring.** Several imports name files that are not in the repository:
  - `summaryController.js` imports `../models/Transaction.js` and `../models/SavingsGoal.js` (lines 1-2).
  - `transactionsController.js` imports `../models/Transaction.js` and `../models/Category.js` (lines 1-2).
  - The budget, savings-goal and transaction routes import `../controllers/budgetController.js`, `../controllers/savingsGoalController.js` and `../controllers/transactionController.js`.
  - `config/index.js` mounts no router at all.
  The model reads each controller's model import as the model file of that name (transactions, savings goals, categories) and each route's controller import as the controller of that name. It assumes the routes are mounted under the paths the frontend calls.
- Summary.MonthlySummary: models the intended report, with the user's own records selected; the report as written, whose aggregates select nothing, is `Summary.MonthlySummaryAsWritten` (see "## Findings").
- Summary.ExpensesByCategory: the intended rows; as written there are none (see "## Findings").
- **Update bodies:** only the schema's fields are modelled in `TxPatch`, `BudgetPatch` and `GoalPatch`. A body that sets `_id` or the timestamps, or an id that does not cast to an ObjectId, is not modelled (each fails as a 500 or is ignored by the database); keys the schema does not declare are dropped by strict mode and have no field.
- **Users.UserStore.ForgotPassword:** it requires a code in [100000, 999999]. That range is what `Math.floor(100000 + Math.random() * 900000)` produces, so the random draw is the caller's.
- Savings.GoalStore.Update: it checks clashes against the intended unique index on live goals only. The schema's actual index on (user_id, name, isDeleted) also refuses a `{ isDeleted: true }` body when the owner already has a deleted goal of that name; that as-written behaviour is `Savings.UpdateAsWritten` (see "## Findings").
- Users.Login: the token carries the user's full name only under the corrected schema of the Backend/controllers/userController.js:41 Findings row. As written, `generatetoken` reads `user.full_name` (Backend/middlewares/auth.js:10), a path the user schema does not declare (Backend/models/userModel.js:3-87). That read is undefined, JSON drops it, and the signed payload holds only `_id` and `email`.
- Transactions.SummaryByCategory: MongoDB leaves the order of `$group`'s output unspecified, and the model fixes it as the order in which each group first appears among the user's transactions. Two groups can share a label and type: a null `category_id` and a dangling one both read 'Sin categoría' (Backend/controllers/transactionsController.js:136). In that case the report keeps the total of whichever such group comes later in that order. The program may keep either total, so the model promises one of the program's possible answers, not every one of them.

## Findings

| source | as written | input that shows it | evidently intended | confidence | as-written member | corrected member |
|---|---|---|---|---|---|---|
| Backend/controllers/userController.js:41 | the new user sets `full_name`, which the schema does not declare; the schema requires `first_name` and `last_name` (Backend/models/userModel.js:4-11), so `save()` always fails validation with 500 | a first registration into an empty store with full name "Ana Pérez", username "ana", email "ana@correo.com" and password "Secreta1!" | the account is created with the trimmed full name, and the answer is 200 'Usuario creado exitosamente.' | high (not executed) | Users.RegisterAsWritten | Users.UserStore.Register |
| Backend/controllers/savingsGoalsController.js:95-99 | the soft delete sets `isDeleted: true` under the unique index on (user_id, name, isDeleted) (Backend/models/savingsGoalsModel.js:55), so deleting a goal fails with 500 when the user already has a deleted goal of the same name | create "Viaje", delete it, create "Viaje" again (accepted), then delete the new one | the delete succeeds and the goal disappears from the listing, so the user keeps any number of deleted goals of one name | high (not executed) | Savings.DeleteAsWritten | Savings.GoalStore.Delete |
| Backend/controllers/savingsGoalsController.js:78-82 | the update sends the request body as it is under the same unique index on (user_id, name, isDeleted), so a body that sets `isDeleted: true` fails with 500 when the owner already has a deleted goal of that name | a deleted "Viaje" and a live "Viaje" of user 7, and an update of the live one with `{ isDeleted: true }` | the update succeeds like the soft delete it performs, as the intended index on live goals lets it | high (not executed) | Savings.UpdateAsWritten | Savings.GoalStore.Update |
| Backend/controllers/summaryController.js:16-46 | `userId` is `req.user._id`, the string of the decoded token (Backend/middlewares/auth.js:38-39); aggregation pipelines are not cast, so every `$match`, the one on goals at lines 75-79 included, compares the stored ObjectId with a string and selects nothing | a user with income of 3000.00 and expenses of 1800.00 in September 2025 asks for `month=2025-09` | the month's income, expense and savings, the balance, the expenses by category and the total saved of that user; the ten recent transactions (a cast `find`) already come out right | high (not executed) | Summary.MonthlySummaryAsWritten | Summary.MonthlySummary |
| Backend/controllers/userController.js:134 | the reset code and expiry are set (lines 102-104) on paths the user schema does not declare (Backend/models/userModel.js:3-87), so strict mode does not save them; the reset query then either finds nobody (every reset is a 400) or, when queries are strict and both keys leave the filter, finds the first user for any code | a store whose only user never asked for a code, and a reset with code "123456" under strict queries; or a user just sent code c who resets with c without them | the mailed code resets its own user's password for one hour, and no other code resets anyone | medium (not executed; which case applies depends on the Mongoose version, which the repository does not pin) | Users.FindByCodeAsWritten | Users.UserStore.ResetPassword |

/**
  * The monthly summary: read-only sums over one calendar month of a user's
  * transactions (income, expense, their difference and the expense per
  * category), the lifetime balance, the ten most recently recorded
  * transactions and what is saved in live goals.
  */
module Summary {
  import opened Base
  import opened Calendar
  import opened Categories
  import opened Transactions
  import Savings
  import Sorting
  import Text

  /** The month window of `month`; a month that does not read as numbers selects nothing. */
  predicate InMonth(t: Transaction, window: Option<Window>)
  {
    window.Some? && InWindow(t.date, window.value)
  }

  predicate OfKindInMonth(t: Transaction, user: Id, k: Kind, window: Option<Window>)
  {
    t.userId == user && t.kind == k && InMonth(t, window)
  }

  function MonthlyTotal(txs: seq<Transaction>, user: Id, k: Kind, window: Option<Window>): Money
  {
    Total(Select(txs, (t: Transaction) => OfKindInMonth(t, user, k, window)))
  }

  function LifetimeTotal(txs: seq<Transaction>, user: Id, k: Kind): Money
  {
    Total(Select(txs, (t: Transaction) => t.userId == user && t.kind == k))
  }

  /** One row of `expensesByCategory`: the category (or 'Sin categoría'), its total and count. */
  datatype ExpenseRow = ExpenseRow(categoryId: Option<Id>, category: string, total: Money, count: nat)

  /** `{ total: -1 }` */
  function LargestTotalFirst(): (le: (ExpenseRow, ExpenseRow) -> bool)
    ensures Sorting.IsTotalPreorder(le)
    ensures forall a, b :: le(a, b) <==> a.total >= b.total
  {
    (a: ExpenseRow, b: ExpenseRow) => a.total >= b.total
  }

  /** `{ created_at: -1 }` */
  function NewestCreatedFirst(): (le: (Transaction, Transaction) -> bool)
    ensures Sorting.IsTotalPreorder(le)
    ensures forall a, b :: le(a, b) <==> AtOrBefore(b.createdAt, a.createdAt)
  {
    (a: Transaction, b: Transaction) => AtOrBefore(b.createdAt, a.createdAt)
  }

  /** The month's expenses of the user. */
  function MonthExpenses(txs: seq<Transaction>, user: Id, window: Option<Window>): seq<Transaction>
  {
    Select(txs, (t: Transaction) => OfKindInMonth(t, user, Gasto, window))
  }

  /** The number of expenses in a category. */
  function CountIn(expenses: seq<Transaction>, c: Option<Id>): nat
  {
    |Select(expenses, (t: Transaction) => t.categoryId == c)|
  }

  /** The `$group` by category of the expenses, with the category named by `$lookup`. */
  function ExpenseRows(groups: seq<GroupRow>, expenses: seq<Transaction>, cats: seq<Category>): (r: seq<ExpenseRow>)
    ensures |r| == |groups|
    ensures forall k :: 0 <= k < |r| ==>
              r[k] == ExpenseRow(groups[k].categoryId, CategoryLabel(cats, groups[k].categoryId),
                                 groups[k].total, CountIn(expenses, groups[k].categoryId))
  {
    if groups == [] then []
    else
      var g := groups[0];
      [ExpenseRow(g.categoryId, CategoryLabel(cats, g.categoryId), g.total, CountIn(expenses, g.categoryId))]
        + ExpenseRows(groups[1..], expenses, cats)
  }

  /** `expensesByCategory`: one row per category of the month's expenses, largest total first. */
  function ExpensesByCategory(txs: seq<Transaction>, cats: seq<Category>, user: Id, window: Option<Window>)
    : (r: seq<ExpenseRow>)
    ensures forall i, j :: 0 <= i < j < |r| ==> r[i].total >= r[j].total
    ensures multiset(r) == multiset(ExpenseRows(Groups(MonthExpenses(txs, user, window)), MonthExpenses(txs, user, window), cats))
  {
    var expenses := MonthExpenses(txs, user, window);
    Sorting.SortBy(ExpenseRows(Groups(expenses), expenses, cats), LargestTotalFirst())
  }

  /**
    * Every expense category of the month has exactly one row, holding the
    * sum and the number of that category's expenses.
    */
  lemma CategoryRowOf(txs: seq<Transaction>, cats: seq<Category>, user: Id, window: Option<Window>, c: Option<Id>)
    requires exists t :: t in MonthExpenses(txs, user, window) && t.categoryId == c
    ensures exists row :: row in ExpensesByCategory(txs, cats, user, window) && row.categoryId == c
    ensures forall row :: row in ExpensesByCategory(txs, cats, user, window) && row.categoryId == c ==>
              && row.category == CategoryLabel(cats, c)
              && row.total == Total(Select(MonthExpenses(txs, user, window), (t: Transaction) => t.categoryId == c))
              && row.count == CountIn(MonthExpenses(txs, user, window), c)
  {
    var expenses := MonthExpenses(txs, user, window);
    var groups := Groups(expenses);
    var rows := ExpenseRows(groups, expenses, cats);
    var sorted := ExpensesByCategory(txs, cats, user, window);
    AllExpenses(expenses, txs, user, window);
    GroupsPresent(expenses, c, Gasto);
    var i := FindGroup(groups, c, Gasto).value;
    assert rows[i] in multiset(sorted);
    forall row | row in sorted && row.categoryId == c
      ensures row.category == CategoryLabel(cats, c)
      ensures row.total == Total(Select(expenses, (t: Transaction) => t.categoryId == c))
      ensures row.count == CountIn(expenses, c)
    {
      assert row in multiset(rows);
      var k :| 0 <= k < |rows| && rows[k] == row;
      RowOfGroup(expenses, cats, k, c);
    }
  }

  /** The row of a group of expenses names its category and holds its sum and count. */
  lemma RowOfGroup(expenses: seq<Transaction>, cats: seq<Category>, k: nat, c: Option<Id>)
    requires forall t :: t in expenses ==> t.kind == Gasto
    requires k < |Groups(expenses)| && Groups(expenses)[k].categoryId == c
    ensures var row := ExpenseRows(Groups(expenses), expenses, cats)[k];
            && row.category == CategoryLabel(cats, c)
            && row.total == Total(Select(expenses, (t: Transaction) => t.categoryId == c))
            && row.count == CountIn(expenses, c)
  {
    var groups := Groups(expenses);
    GroupKindOccurs(expenses, groups, k);
    var i := FindGroup(groups, c, Gasto).value;
    assert !(k < i) && !(i < k);
    GroupsTotal(expenses, c, Gasto);
    SameFilter(expenses, c);
  }

  /** Every expense of the month is of kind 'gasto'. */
  lemma AllExpenses(expenses: seq<Transaction>, txs: seq<Transaction>, user: Id, window: Option<Window>)
    requires expenses == MonthExpenses(txs, user, window)
    ensures forall t :: t in expenses ==> t.kind == Gasto
  {
  }

  /** A group row's kind is the kind of some transaction grouped. */
  lemma GroupKindOccurs(expenses: seq<Transaction>, groups: seq<GroupRow>, k: nat)
    requires groups == Groups(expenses) && k < |groups|
    requires forall t :: t in expenses ==> t.kind == Gasto
    ensures groups[k].kind == Gasto
  {
    var g := groups[k];
    assert FindGroup(groups, g.categoryId, g.kind).Some?;
    GroupsPresent(expenses, g.categoryId, g.kind);
  }

  /** Among expenses only, selecting a category and selecting (category, 'gasto') agree. */
  lemma {:induction false} SameFilter(expenses: seq<Transaction>, c: Option<Id>)
    requires forall t :: t in expenses ==> t.kind == Gasto
    ensures Select(expenses, (t: Transaction) => t.categoryId == c)
         == Select(expenses, (t: Transaction) => t.categoryId == c && t.kind == Gasto)
  {
    if expenses != [] {
      var init := expenses[..|expenses| - 1];
      assert forall t :: t in init ==> t in expenses;
      SameFilter(init, c);
    }
  }

  /** An entry of `recentTransactions`: the transaction and its populated category name. */
  datatype RecentItem = RecentItem(transaction: Transaction, category: Option<string>)

  function WithCategory(txs: seq<Transaction>, cats: seq<Category>): (r: seq<RecentItem>)
    ensures |r| == |txs|
    ensures forall k :: 0 <= k < |r| ==> r[k] == RecentItem(txs[k], NameOf(cats, txs[k].categoryId))
  {
    if txs == [] then [] else [RecentItem(txs[0], NameOf(cats, txs[0].categoryId))] + WithCategory(txs[1..], cats)
  }

  /** `find({ user_id }).sort({ created_at: -1 }).limit(10)`, without the category names. */
  function RecentOf(txs: seq<Transaction>, user: Id): (r: seq<Transaction>)
    ensures |r| == Min(10, |Select(txs, (t: Transaction) => t.userId == user)|)
    ensures multiset(r) <= multiset(Select(txs, (t: Transaction) => t.userId == user))
    ensures forall i, j :: 0 <= i < j < |r| ==> AtOrBefore(r[j].createdAt, r[i].createdAt)
    ensures forall x, y :: x in r && y in multiset(Select(txs, (t: Transaction) => t.userId == user)) - multiset(r)
              ==> AtOrBefore(y.createdAt, x.createdAt)
  {
    var mine := Select(txs, (t: Transaction) => t.userId == user);
    var le := NewestCreatedFirst();
    var sorted := Sorting.SortBy(mine, le);
    PageOfSorted(sorted, le, 0, 10);
    var r := Page(sorted, 0, 10);
    assert r == sorted[..|r|];
    Sorting.KeptPrecedeDropped(sorted, le, |r|);
    r
  }

  /** `current_amount` summed over the user's live goals. */
  function TotalSaved(goals: seq<Savings.Goal>, user: Id): Money
  {
    if goals == [] then 0
    else
      var g := goals[|goals| - 1];
      TotalSaved(goals[..|goals| - 1], user) + (if g.userId == user && !g.isDeleted then g.current else 0)
  }

  /** Deleting a goal takes its savings out of the total; nothing else changes it. */
  lemma {:induction false} TotalSavedAfterDelete(goals: seq<Savings.Goal>, i: nat, user: Id)
    requires i < |goals| && goals[i].userId == user && !goals[i].isDeleted
    ensures TotalSaved(goals[i := goals[i].(isDeleted := true)], user) == TotalSaved(goals, user) - goals[i].current
  {
    var after := goals[i := goals[i].(isDeleted := true)];
    if i < |goals| - 1 {
      TotalSavedAfterDelete(goals[..|goals| - 1], i, user);
      assert after[..|after| - 1] == goals[..|goals| - 1][i := goals[i].(isDeleted := true)];
    } else {
      assert after[..|after| - 1] == goals[..|goals| - 1];
    }
  }

  datatype MonthlyReport = MonthlyReport(
    totalBalance: Money,
    monthlyIncome: Money,
    monthlyExpense: Money,
    monthlySavings: Money,
    totalSaved: Money,
    expensesByCategory: seq<ExpenseRow>,
    recentTransactions: seq<RecentItem>)

  /**
    * `getMonthlySummary`: 400 when the month is missing or empty; otherwise
    * the month's income and expense and their difference, the lifetime
    * balance, the month's expenses by category, the ten newest transactions
    * and the savings in live goals.
    */
  function MonthlySummary(txs: seq<Transaction>, goals: seq<Savings.Goal>, cats: seq<Category>, user: Id,
                          month: Option<string>)
    : (r: Result<MonthlyReport>)
    ensures month.None? || month.value == "" ==> r == Err(BAD_REQUEST, "Falta month")
    ensures month.Some? && month.value != "" ==> r.Ok?
    ensures r.Ok? ==>
              var w := MonthWindowOf(month.value);
              && r.value.monthlyIncome == MonthlyTotal(txs, user, Ingreso, w)
              && r.value.monthlyExpense == MonthlyTotal(txs, user, Gasto, w)
              && r.value.monthlySavings == r.value.monthlyIncome - r.value.monthlyExpense
              && r.value.totalBalance == LifetimeTotal(txs, user, Ingreso) - LifetimeTotal(txs, user, Gasto)
              && r.value.totalSaved == TotalSaved(goals, user)
              && r.value.expensesByCategory == ExpensesByCategory(txs, cats, user, w)
              && r.value.recentTransactions == WithCategory(RecentOf(txs, user), cats)
  {
    if month.None? || month.value == "" then Err(BAD_REQUEST, "Falta month")
    else
      var w := MonthWindowOf(month.value);
      var income := MonthlyTotal(txs, user, Ingreso, w);
      var expense := MonthlyTotal(txs, user, Gasto, w);
      Ok(MonthlyReport(
        LifetimeTotal(txs, user, Ingreso) - LifetimeTotal(txs, user, Gasto),
        income, expense, income - expense,
        TotalSaved(goals, user),
        ExpensesByCategory(txs, cats, user, w),
        WithCategory(RecentOf(txs, user), cats)))
  }

  /* ---------- The summary as written ---------- */

  /** The value a `$match` compares with the stored ObjectId `user_id`. */
  datatype MatchValue = ObjectIdValue(id: Id) | StringValue(text: string)

  /** BSON equality: a value of another type never equals an ObjectId. */
  predicate MatchesUser(v: MatchValue, stored: Id)
  {
    v.ObjectIdValue? && v.id == stored
  }

  /** `$sum` of `current_amount` over the live goals whose `user_id` the value matches. */
  function SavedWhere(goals: seq<Savings.Goal>, v: MatchValue): Money
  {
    if goals == [] then 0
    else
      var g := goals[|goals| - 1];
      SavedWhere(goals[..|goals| - 1], v) + (if MatchesUser(v, g.userId) && !g.isDeleted then g.current else 0)
  }

  /** A value that matches no stored id selects no goal. */
  lemma {:induction false} SavedWhereNothing(goals: seq<Savings.Goal>, v: MatchValue)
    requires v.StringValue?
    ensures SavedWhere(goals, v) == 0
  {
    if goals != [] {
      SavedWhereNothing(goals[..|goals| - 1], v);
    }
  }

  /**
    * `getMonthlySummary` as written: the user id taken from the token is the
    * string of the payload, and the aggregation stages are not cast, so every
    * `$match` compares the stored ObjectId with that string. Only the
    * `find` of the recent transactions casts it.
    */
  function MonthlySummaryAsWritten(txs: seq<Transaction>, goals: seq<Savings.Goal>, cats: seq<Category>, user: Id,
                                   tokenId: string, month: Option<string>)
    : (r: Result<MonthlyReport>)
    ensures month.None? || month.value == "" ==> r == Err(BAD_REQUEST, "Falta month")
    ensures month.Some? && month.value != "" ==> r.Ok?
    ensures r.Ok? ==>
              && r.value.monthlyIncome == 0 && r.value.monthlyExpense == 0 && r.value.monthlySavings == 0
              && r.value.totalBalance == 0 && r.value.totalSaved == 0
              && r.value.expensesByCategory == []
              && r.value.recentTransactions == WithCategory(RecentOf(txs, user), cats)
  {
    if month.None? || month.value == "" then Err(BAD_REQUEST, "Falta month")
    else
      var w := MonthWindowOf(month.value);
      var v := StringValue(tokenId);
      var incomeIn := Select(txs, (t: Transaction) => MatchesUser(v, t.userId) && t.kind == Ingreso && InMonth(t, w));
      var expenseIn := Select(txs, (t: Transaction) => MatchesUser(v, t.userId) && t.kind == Gasto && InMonth(t, w));
      var incomeAll := Select(txs, (t: Transaction) => MatchesUser(v, t.userId) && t.kind == Ingreso);
      var expenseAll := Select(txs, (t: Transaction) => MatchesUser(v, t.userId) && t.kind == Gasto);
      SelectNothing(txs, (t: Transaction) => MatchesUser(v, t.userId) && t.kind == Ingreso && InMonth(t, w));
      SelectNothing(txs, (t: Transaction) => MatchesUser(v, t.userId) && t.kind == Gasto && InMonth(t, w));
      SelectNothing(txs, (t: Transaction) => MatchesUser(v, t.userId) && t.kind == Ingreso);
      SelectNothing(txs, (t: Transaction) => MatchesUser(v, t.userId) && t.kind == Gasto);
      SavedWhereNothing(goals, v);
      var income := Total(incomeIn);
      var expense := Total(expenseIn);
      Ok(MonthlyReport(
        Total(incomeAll) - Total(expenseAll),
        income, expense, income - expense,
        SavedWhere(goals, v),
        Sorting.SortBy(ExpenseRows(Groups(expenseIn), expenseIn, cats), LargestTotalFirst()),
        WithCategory(RecentOf(txs, user), cats)))
  }

  /**
    * For the September movements of user 1, the report as written shows no
    * income, expense or balance, while the intended report shows 3000.00,
    * 1800.00 and 1700.00; the recent transactions agree.
    */
  lemma SummaryAsWrittenIsEmpty(goals: seq<Savings.Goal>, cats: seq<Category>, tokenId: string)
    ensures var written := MonthlySummaryAsWritten(SeptemberMovements(), goals, cats, 1, tokenId, Some("2025-09"));
            var intended := MonthlySummary(SeptemberMovements(), goals, cats, 1, Some("2025-09"));
            && written.Ok? && intended.Ok?
            && written.value.monthlyIncome == 0 && intended.value.monthlyIncome == 300000
            && written.value.monthlyExpense == 0 && intended.value.monthlyExpense == 180000
            && written.value.totalBalance == 0 && intended.value.totalBalance == 170000
            && written.value.recentTransactions == intended.value.recentTransactions
  {
    ScenarioSeptember(goals, cats);
  }

  /** The lifetime balance is the same whichever month is asked for. */
  lemma BalanceIndependentOfMonth(txs: seq<Transaction>, goals: seq<Savings.Goal>, cats: seq<Category>, user: Id,
                                  m1: string, m2: string)
    requires m1 != "" && m2 != ""
    ensures MonthlySummary(txs, goals, cats, user, Some(m1)).value.totalBalance
         == MonthlySummary(txs, goals, cats, user, Some(m2)).value.totalBalance
  {
  }

  /** A month without movements of the user sums to zero income, expense and savings. */
  lemma EmptyMonth(txs: seq<Transaction>, user: Id, w: Option<Window>)
    requires forall k :: 0 <= k < |txs| ==> txs[k].userId != user || !InMonth(txs[k], w)
    ensures MonthlyTotal(txs, user, Ingreso, w) == 0 && MonthlyTotal(txs, user, Gasto, w) == 0
  {
    SelectNothing(txs, (t: Transaction) => OfKindInMonth(t, user, Ingreso, w));
    SelectNothing(txs, (t: Transaction) => OfKindInMonth(t, user, Gasto, w));
  }

  /** Three movements of user 1: income and an expense in September 2025, and an older income. */
  function SeptemberMovements(): seq<Transaction>
  {
    [ Transaction(0, 1, Ingreso, 300000, Instant(2025 * 12 + 8, 1000), None, None, Instant(2025 * 12 + 8, 1000)),
      Transaction(1, 1, Gasto, 180000, Instant(2025 * 12 + 8, 2000), None, None, Instant(2025 * 12 + 8, 2000)),
      Transaction(2, 1, Ingreso, 50000, Instant(2025 * 12 + 7, 0), None, None, Instant(2025 * 12 + 7, 0)) ]
  }

  lemma DigitsOfYear()
    ensures Text.DigitsValue("2025") == 2025
  {
    assert "2025"[..3] == "202" && "202"[..2] == "20" && "20"[..1] == "2" && "2"[..0] == "";
  }

  lemma DigitsOfMonth()
    ensures Text.DigitsValue("09") == 9
  {
    assert "09"[..1] == "0" && "0"[..0] == "";
  }

  lemma SeptemberWindow()
    ensures MonthWindowOf("2025-09") == Some(MonthWindow(2025, 9))
  {
    var month := "2025-09";
    assert month[..4] == "2025" && month[5..] == "09";
    assert MonthFormatOk(month);
    FormatOkParses(month);
    DigitsOfYear();
    DigitsOfMonth();
  }

  /** The sum over three transactions of those a filter accepts. */
  lemma TotalOfThree(a: Transaction, b: Transaction, c: Transaction, p: Transaction -> bool)
    ensures Total(Select([a, b, c], p)) ==
              (if p(a) then a.amount else 0) + (if p(b) then b.amount else 0) + (if p(c) then c.amount else 0)
  {
    SelectTotalSnoc([], a, p);
    SelectTotalSnoc([a], b, p);
    SelectTotalSnoc([a, b], c, p);
    assert [] + [a] == [a] && [a] + [b] == [a, b] && [a, b] + [c] == [a, b, c];
  }

  lemma SeptemberMonthTotals(w: Option<Window>)
    requires w == Some(MonthWindow(2025, 9))
    ensures MonthlyTotal(SeptemberMovements(), 1, Ingreso, w) == 300000
    ensures MonthlyTotal(SeptemberMovements(), 1, Gasto, w) == 180000
  {
    var txs := SeptemberMovements();
    assert InWindow(txs[0].date, w.value) && InWindow(txs[1].date, w.value) && !InWindow(txs[2].date, w.value);
    TotalOfThree(txs[0], txs[1], txs[2], (t: Transaction) => OfKindInMonth(t, 1, Ingreso, w));
    TotalOfThree(txs[0], txs[1], txs[2], (t: Transaction) => OfKindInMonth(t, 1, Gasto, w));
  }

  lemma SeptemberLifetimeTotals()
    ensures LifetimeTotal(SeptemberMovements(), 1, Ingreso) == 350000
    ensures LifetimeTotal(SeptemberMovements(), 1, Gasto) == 180000
  {
    var txs := SeptemberMovements();
    TotalOfThree(txs[0], txs[1], txs[2], (t: Transaction) => t.userId == 1 && t.kind == Ingreso);
    TotalOfThree(txs[0], txs[1], txs[2], (t: Transaction) => t.userId == 1 && t.kind == Gasto);
  }

  /**
    * September 2025 with 3000.00 of income and 1800.00 of expenses, plus an
    * older income of 500.00: 1200.00 saved in the month, while the balance
    * also counts the older income.
    */
  lemma ScenarioSeptember(goals: seq<Savings.Goal>, cats: seq<Category>)
    ensures var r := MonthlySummary(SeptemberMovements(), goals, cats, 1, Some("2025-09"));
            && r.Ok?
            && r.value.monthlyIncome == 300000 && r.value.monthlyExpense == 180000
            && r.value.monthlySavings == 120000 && r.value.totalBalance == 170000
  {
    SeptemberWindow();
    SeptemberMonthTotals(MonthWindowOf("2025-09"));
    SeptemberLifetimeTotals();
  }
}

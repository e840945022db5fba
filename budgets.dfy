/**
  * Monthly budgets: a spending limit per (user, category, month) with an
  * alert threshold in percent. At most five of a user's budgets may be
  * created while active, and the store keeps one budget per key whatever
  * its flags. Listing adds what was spent in the month, what is left, the
  * percentage used and whether the alert fires.
  */
module Budgets {
  import opened Base
  import opened Calendar
  import opened Text
  import opened Categories
  import Transactions

  datatype Budget = Budget(
    id: Id,
    userId: Id,
    categoryId: Id,
    month: string,
    limit: Money,
    threshold: int,
    isActive: bool,
    isDeleted: bool)

  /** The schema's field checks: the month pattern and a threshold in [0, 100]. */
  predicate FieldsValid(b: Budget)
  {
    MonthFormatOk(b.month) && 0 <= b.threshold <= 100
  }

  predicate SameKey(a: Budget, b: Budget)
  {
    a.userId == b.userId && a.categoryId == b.categoryId && a.month == b.month
  }

  /** The unique index on (user_id, category_id, month), whatever the flags. */
  predicate UniqueKeys(bs: seq<Budget>)
  {
    forall i, j :: 0 <= i < j < |bs| ==> !SameKey(bs[i], bs[j])
  }

  /** `countDocuments({ user_id, isActive: true })`: across all months, deleted or not. */
  function ActiveCount(bs: seq<Budget>, user: Id): nat
  {
    if bs == [] then 0
    else ActiveCount(bs[..|bs| - 1], user) + (if bs[|bs| - 1].userId == user && bs[|bs| - 1].isActive then 1 else 0)
  }

  lemma ActiveCountSnoc(bs: seq<Budget>, b: Budget, user: Id)
    ensures ActiveCount(bs + [b], user) == ActiveCount(bs, user) + (if b.userId == user && b.isActive then 1 else 0)
  {
    assert (bs + [b])[..|bs|] == bs;
  }

  /**
    * The duplicate probe `findOne({ user_id, category_id, month, isActive: true })`.
    * A field missing from the request drops out of the filter.
    */
  predicate IsActiveTwin(b: Budget, user: Id, categoryId: Option<Id>, month: Option<string>)
  {
    && b.userId == user && b.isActive
    && (categoryId.None? || b.categoryId == categoryId.value)
    && (month.None? || b.month == month.value)
  }

  function FindActiveTwin(bs: seq<Budget>, user: Id, categoryId: Option<Id>, month: Option<string>): (r: Option<nat>)
    ensures r.Some? ==> r.value < |bs| && IsActiveTwin(bs[r.value], user, categoryId, month)
    ensures r.None? ==> forall k :: 0 <= k < |bs| ==> !IsActiveTwin(bs[k], user, categoryId, month)
  {
    FindIndex(bs, (b: Budget) => IsActiveTwin(b, user, categoryId, month))
  }

  /** Whether some budget, active or not, already holds the key. */
  function FindKey(bs: seq<Budget>, b: Budget): (r: Option<nat>)
    ensures r.Some? ==> r.value < |bs| && SameKey(bs[r.value], b)
    ensures r.None? ==> forall k :: 0 <= k < |bs| ==> !SameKey(bs[k], b)
  {
    FindIndex(bs, (x: Budget) => SameKey(x, b))
  }

  /** `findOne({ _id: id, user_id: user })` */
  function FindOwned(bs: seq<Budget>, id: Id, user: Id): (r: Option<nat>)
    ensures r.Some? ==> r.value < |bs| && bs[r.value].id == id && bs[r.value].userId == user
    ensures r.None? ==> forall k :: 0 <= k < |bs| ==> bs[k].id != id || bs[k].userId != user
  {
    FindIndex(bs, (b: Budget) => b.id == id && b.userId == user)
  }

  const CAP_MESSAGE: string := "Solo puedes tener hasta 5 presupuestos activos simultáneamente."
  const DUPLICATE_MESSAGE: string := "Ya existe un presupuesto activo para esa categoría y mes."
  const NOT_FOUND_MESSAGE: string := "Presupuesto no encontrado"

  /**
    * The fields of an update request; absent fields keep their value. The
    * body goes to the database as it is, so it may also set `user_id` (the
    * budget changes hands) and `isDeleted`.
    */
  datatype BudgetPatch = BudgetPatch(
    userId: Option<Id>,
    categoryId: Option<Id>,
    month: Option<string>,
    limit: Option<Money>,
    threshold: Option<int>,
    isActive: Option<bool>,
    isDeleted: Option<bool>)

  /** The update validators look only at the fields the patch sets. */
  predicate PatchValid(p: BudgetPatch)
  {
    (p.month.None? || MonthFormatOk(p.month.value)) && (p.threshold.None? || 0 <= p.threshold.value <= 100)
  }

  function ApplyPatch(b: Budget, p: BudgetPatch): (r: Budget)
    ensures r.id == b.id
    ensures p.userId.None? ==> r.userId == b.userId
    ensures p.userId.Some? ==> r.userId == p.userId.value
    ensures p.isDeleted.None? ==> r.isDeleted == b.isDeleted
    ensures p.isDeleted.Some? ==> r.isDeleted == p.isDeleted.value
    ensures FieldsValid(b) && PatchValid(p) ==> FieldsValid(r)
  {
    Budget(
      b.id, if p.userId.Some? then p.userId.value else b.userId,
      if p.categoryId.Some? then p.categoryId.value else b.categoryId,
      if p.month.Some? then p.month.value else b.month,
      if p.limit.Some? then p.limit.value else b.limit,
      if p.threshold.Some? then p.threshold.value else b.threshold,
      if p.isActive.Some? then p.isActive.value else b.isActive,
      if p.isDeleted.Some? then p.isDeleted.value else b.isDeleted)
  }

  /** Sending the same update twice changes nothing the second time. */
  lemma PatchIdempotent(b: Budget, p: BudgetPatch)
    ensures ApplyPatch(ApplyPatch(b, p), p) == ApplyPatch(b, p)
  {
  }

  /** Whether replacing position i by b would give two budgets the same key. */
  predicate ClashesElsewhere(bs: seq<Budget>, i: nat, b: Budget)
  {
    exists k :: 0 <= k < |bs| && k != i && SameKey(bs[k], b)
  }

  datatype ToggleReply = ToggleReply(budget: Budget, message: string)

  /**
    * The table's invariant: ids are unique and below the next one, every
    * budget passes the schema's checks, and keys are unique.
    */
  ghost predicate BudgetsValid(bs: seq<Budget>, nextId: Id)
  {
    && (forall i :: 0 <= i < |bs| ==> bs[i].id < nextId && FieldsValid(bs[i]))
    && (forall i, j :: 0 <= i < j < |bs| ==> bs[i].id != bs[j].id)
    && UniqueKeys(bs)
  }

  /** A budget with the next id, valid fields and a key nobody holds keeps the table valid. */
  lemma AppendKeepsBudgetsValid(bs: seq<Budget>, nextId: Id, b: Budget)
    requires BudgetsValid(bs, nextId) && b.id == nextId && FieldsValid(b) && FindKey(bs, b).None?
    ensures BudgetsValid(bs + [b], nextId + 1)
  {
    var r := bs + [b];
    assert forall i :: 0 <= i < |bs| ==> r[i] == bs[i];
    forall i, j | 0 <= i < j < |r| ensures !SameKey(r[i], r[j]) {
      if j == |bs| {
        assert !SameKey(bs[i], b);
      }
    }
  }

  class BudgetStore {
    var budgets: seq<Budget>
    var nextId: Id

    ghost predicate Valid()
      reads this
    {
      BudgetsValid(budgets, nextId)
    }

    constructor ()
      ensures Valid() && budgets == []
    {
      budgets := [];
      nextId := 0;
    }

    /**
      * `createBudget`: the cap of five active budgets is checked first, then
      * an active budget for the same category and month; both answer 409 and
      * write nothing. A missing or invalid field, or a key held by an
      * inactive budget (the unique index), is a 500. Otherwise exactly one
      * active budget is appended.
      */
    method Create(user: Id, categoryId: Option<Id>, month: Option<string>, limit: Option<Money>,
                  threshold: Option<int>)
      returns (r: Result<Budget>)
      requires Valid()
      modifies this
      ensures Valid()
      ensures r.Err? ==> budgets == old(budgets) && nextId == old(nextId)
      ensures ActiveCount(old(budgets), user) >= 5 ==> r == Err(CONFLICT, CAP_MESSAGE)
      ensures ActiveCount(old(budgets), user) < 5 && FindActiveTwin(old(budgets), user, categoryId, month).Some? ==>
                r == Err(CONFLICT, DUPLICATE_MESSAGE)
      ensures r.Ok? <==>
                && ActiveCount(old(budgets), user) < 5
                && FindActiveTwin(old(budgets), user, categoryId, month).None?
                && categoryId.Some? && month.Some? && limit.Some? && threshold.Some?
                && MonthFormatOk(month.value) && 0 <= threshold.value <= 100
                && FindKey(old(budgets), Budget(0, user, categoryId.value, month.value, 0, 0, true, false)).None?
      ensures r.Err? && r.status != CONFLICT ==> r.status == INTERNAL_ERROR
      ensures r.Ok? ==> r.value == Budget(old(nextId), user, categoryId.value, month.value, limit.value,
                                          threshold.value, true, false)
      ensures r.Ok? ==> budgets == old(budgets) + [r.value]
      ensures r.Ok? ==> ActiveCount(budgets, user) == ActiveCount(old(budgets), user) + 1 <= 5
    {
      if ActiveCount(budgets, user) >= 5 {
        return Err(CONFLICT, CAP_MESSAGE);
      }
      if FindActiveTwin(budgets, user, categoryId, month).Some? {
        return Err(CONFLICT, DUPLICATE_MESSAGE);
      }
      if categoryId.None? || month.None? || limit.None? || threshold.None?
         || !MonthFormatOk(month.value) || !(0 <= threshold.value <= 100) {
        return Err(INTERNAL_ERROR, "Error al crear presupuesto");
      }
      var b := Budget(nextId, user, categoryId.value, month.value, limit.value, threshold.value, true, false);
      if FindKey(budgets, b).Some? {
        return Err(INTERNAL_ERROR, "Error al crear presupuesto");
      }
      ActiveCountSnoc(budgets, b, user);
      AppendKeepsBudgetsValid(budgets, nextId, b);
      budgets := budgets + [b];
      nextId := nextId + 1;
      r := Ok(b);
    }

    /**
      * `updateBudget`: the validators of the fields being set run first (500);
      * then the budget with this id owned by this user is replaced by its
      * patched version, or 404. A patch that moves it onto another budget's
      * key (a new category, month or owner) is refused by the unique index
      * (500). Neither the cap nor the
      * active-duplicate rule is checked.
      */
    method Update(user: Id, id: Id, patch: BudgetPatch) returns (r: Result<Budget>)
      requires Valid()
      modifies this
      ensures Valid() && nextId == old(nextId)
      ensures r.Err? ==> budgets == old(budgets)
      ensures !PatchValid(patch) ==> r.Err? && r.status == INTERNAL_ERROR
      ensures PatchValid(patch) && FindOwned(old(budgets), id, user).None? ==> r == Err(NOT_FOUND, NOT_FOUND_MESSAGE)
      ensures PatchValid(patch) && FindOwned(old(budgets), id, user).Some? ==>
                var i := FindOwned(old(budgets), id, user).value;
                var b := ApplyPatch(old(budgets)[i], patch);
                && (ClashesElsewhere(old(budgets), i, b) ==> r.Err? && r.status == INTERNAL_ERROR)
                && (!ClashesElsewhere(old(budgets), i, b) ==> r == Ok(b) && budgets == old(budgets)[i := b])
    {
      if !PatchValid(patch) {
        return Err(INTERNAL_ERROR, "Error al actualizar");
      }
      var found := FindOwned(budgets, id, user);
      if found.None? {
        return Err(NOT_FOUND, NOT_FOUND_MESSAGE);
      }
      var i := found.value;
      var b := ApplyPatch(budgets[i], patch);
      if ClashesElsewhere(budgets, i, b) {
        return Err(INTERNAL_ERROR, "Error al actualizar");
      }
      budgets := budgets[i := b];
      r := Ok(b);
    }

    /**
      * `toggleBudget`: flips `isActive` of the owned budget and nothing else,
      * or answers 404. Re-activating is not checked against the cap.
      */
    method Toggle(user: Id, id: Id) returns (r: Result<ToggleReply>)
      requires Valid()
      modifies this
      ensures Valid() && nextId == old(nextId)
      ensures FindOwned(old(budgets), id, user).None? ==>
                r == Err(NOT_FOUND, NOT_FOUND_MESSAGE) && budgets == old(budgets)
      ensures FindOwned(old(budgets), id, user).Some? ==>
                var i := FindOwned(old(budgets), id, user).value;
                var b := old(budgets)[i].(isActive := !old(budgets)[i].isActive);
                && budgets == old(budgets)[i := b]
                && r == Ok(ToggleReply(b, if b.isActive then "Presupuesto activado" else "Presupuesto desactivado"))
    {
      var found := FindOwned(budgets, id, user);
      if found.None? {
        return Err(NOT_FOUND, NOT_FOUND_MESSAGE);
      }
      var i := found.value;
      var b := budgets[i].(isActive := !budgets[i].isActive);
      budgets := budgets[i := b];
      r := Ok(ToggleReply(b, if b.isActive then "Presupuesto activado" else "Presupuesto desactivado"));
    }

    /** `deleteBudget`: physically removes the owned budget, or answers 404. */
    method Delete(user: Id, id: Id) returns (r: Result<string>)
      requires Valid()
      modifies this
      ensures Valid() && nextId == old(nextId)
      ensures FindOwned(old(budgets), id, user).None? ==>
                r == Err(NOT_FOUND, NOT_FOUND_MESSAGE) && budgets == old(budgets)
      ensures FindOwned(old(budgets), id, user).Some? ==>
                r == Ok("Presupuesto eliminado") &&
                budgets == RemoveAt(old(budgets), FindOwned(old(budgets), id, user).value)
    {
      var found := FindOwned(budgets, id, user);
      if found.None? {
        return Err(NOT_FOUND, NOT_FOUND_MESSAGE);
      }
      budgets := RemoveAt(budgets, found.value);
      r := Ok("Presupuesto eliminado");
    }
  }

  /**
    * An update whose body sets another `user_id` hands the budget over: its
    * former owner no longer finds it (404 on update, toggle and delete).
    */
  lemma HandedOverNotFound(bs: seq<Budget>, nextId: Id, i: nat, p: BudgetPatch, user: Id)
    requires BudgetsValid(bs, nextId) && i < |bs|
    requires p.userId.Some? && p.userId.value != user
    ensures FindOwned(bs[i := ApplyPatch(bs[i], p)], bs[i].id, user).None?
  {
    var after := bs[i := ApplyPatch(bs[i], p)];
    forall k | 0 <= k < |after|
      ensures after[k].id != bs[i].id || after[k].userId != user
    {
      if k != i {
        assert after[k] == bs[k];
        if k < i { assert bs[k].id != bs[i].id; } else { assert bs[i].id != bs[k].id; }
      }
    }
  }

  /** Toggling the same budget twice gives the table back. */
  lemma ToggleTwiceRestores(bs: seq<Budget>, i: nat)
    requires i < |bs|
    ensures var once := bs[i := bs[i].(isActive := !bs[i].isActive)];
            once[i := once[i].(isActive := !once[i].isActive)] == bs
  {
    var once := bs[i := bs[i].(isActive := !bs[i].isActive)];
    assert once[i].(isActive := !once[i].isActive) == bs[i];
  }

  /** Five active budgets of user 0 for month "2025-09", one per category 0..4. */
  function FiveActive(): seq<Budget>
  {
    [ Budget(0, 0, 0, "2025-09", 100, 80, true, false), Budget(1, 0, 1, "2025-09", 100, 80, true, false),
      Budget(2, 0, 2, "2025-09", 100, 80, true, false), Budget(3, 0, 3, "2025-09", 100, 80, true, false),
      Budget(4, 0, 4, "2025-09", 100, 80, true, false) ]
  }

  lemma {:induction false} AllActiveCounted(bs: seq<Budget>, user: Id)
    requires forall k :: 0 <= k < |bs| ==> bs[k].userId == user && bs[k].isActive
    ensures ActiveCount(bs, user) == |bs|
  {
    if bs != [] {
      AllActiveCounted(bs[..|bs| - 1], user);
    }
  }

  /**
    * Because toggling skips the cap, a user with five active budgets and a
    * deactivated sixth (created before one of the others, say) ends up with
    * six active budgets by toggling the sixth, which creating would refuse.
    */
  lemma ToggleCanExceedCap()
    ensures var inactive := Budget(5, 0, 5, "2025-09", 100, 80, false, false);
            && UniqueKeys(FiveActive() + [inactive])
            && ActiveCount(FiveActive() + [inactive], 0) == 5
            && ActiveCount(FiveActive() + [inactive.(isActive := true)], 0) == 6
  {
    var inactive := Budget(5, 0, 5, "2025-09", 100, 80, false, false);
    AllActiveCounted(FiveActive(), 0);
    ActiveCountSnoc(FiveActive(), inactive, 0);
    ActiveCountSnoc(FiveActive(), inactive.(isActive := true), 0);
  }

  /* ---------- Spending in a month ---------- */

  /** The `$match` of `spentInPeriod`. */
  predicate IsSpending(t: Transactions.Transaction, user: Id, categoryId: Id, w: Window)
  {
    t.userId == user && t.categoryId == Some(categoryId) && t.kind == Gasto && InWindow(t.date, w)
  }

  /**
    * `spentInPeriod`: the sum of the user's expenses in the category dated in
    * the month's window, 0 when there are none. A month that does not read as
    * numbers has an empty window.
    */
  function SpentInPeriod(txs: seq<Transactions.Transaction>, user: Id, categoryId: Id, month: string): Money
  {
    match MonthWindowOf(month)
    case None => 0
    case Some(w) => Transactions.Total(Transactions.Select(txs, (t: Transactions.Transaction) => IsSpending(t, user, categoryId, w)))
  }

  /**
    * Recording a transaction changes what was spent by exactly its amount
    * when it is an expense of that user and category dated inside the
    * month, and leaves it unchanged otherwise (income, other users, other
    * categories, other months).
    */
  lemma SpentAfterRecording(txs: seq<Transactions.Transaction>, t: Transactions.Transaction, user: Id, categoryId: Id, month: string)
    requires MonthFormatOk(month)
    ensures var w := MonthWindowOf(month).value;
            SpentInPeriod(txs + [t], user, categoryId, month) ==
              SpentInPeriod(txs, user, categoryId, month) + (if IsSpending(t, user, categoryId, w) then t.amount else 0)
  {
    FormatOkParses(month);
    var w := MonthWindowOf(month).value;
    Transactions.SelectTotalSnoc(txs, t, (u: Transactions.Transaction) => IsSpending(u, user, categoryId, w));
  }

  /** Nothing is spent while no transaction matches. */
  lemma NothingSpent(txs: seq<Transactions.Transaction>, user: Id, categoryId: Id, month: string)
    requires forall k :: 0 <= k < |txs| ==>
               txs[k].userId != user || txs[k].categoryId != Some(categoryId) || txs[k].kind != Gasto
    ensures SpentInPeriod(txs, user, categoryId, month) == 0
  {
    match MonthWindowOf(month)
    case None =>
    case Some(w) =>
      Transactions.SelectNothing(txs, (t: Transactions.Transaction) => IsSpending(t, user, categoryId, w));
  }

  /** A transaction counts for the month "YYYY-MM" exactly when it is dated in that calendar month. */
  lemma SpendingIsInCalendarMonth(t: Transactions.Transaction, user: Id, categoryId: Id, month: string)
    requires MonthFormatOk(month)
    ensures var w := MonthWindowOf(month).value;
            IsSpending(t, user, categoryId, w) <==>
              && t.userId == user && t.categoryId == Some(categoryId) && t.kind == Gasto
              && t.date.monthIndex == FullYear(DigitsValue(month[..4])) * 12 + DigitsValue(month[5..]) - 1
  {
    FormatOkParses(month);
    InMonthWindowIff(t.date, DigitsValue(month[..4]), DigitsValue(month[5..]));
  }

  /* ---------- Listing ---------- */

  /** `{ user_id, isActive: true }` plus `month` when one is given (an empty one is ignored). */
  predicate Listed(b: Budget, user: Id, month: Option<string>)
  {
    b.userId == user && b.isActive && (month.None? || month.value == "" || b.month == month.value)
  }

  function ListedBudgets(bs: seq<Budget>, user: Id, month: Option<string>): (r: seq<Budget>)
    ensures forall b :: b in r <==> b in bs && Listed(b, user, month)
    ensures |r| <= |bs|
  {
    if bs == [] then []
    else
      var init, last := bs[..|bs| - 1], bs[|bs| - 1];
      assert bs == init + [last];
      ListedBudgets(init, user, month) + (if Listed(last, user, month) then [last] else [])
  }

  /** What the listing reports for one budget. Percentages are in tenths of a percent. */
  datatype BudgetView = BudgetView(
    id: Id,
    category: string,
    month: string,
    limit: Money,
    threshold: int,
    isActive: bool,
    spent: Money,
    available: Money,
    percentTenths: int,
    alert: bool)

  /**
    * `spent / limit * 100` rounded to one decimal, in tenths: the integer
    * nearest to `spent * 1000 / limit`; 0 for a zero limit.
    */
  function PercentTenths(spent: Money, limit: Money): (p: int)
    ensures limit == 0 ==> p == 0
    ensures limit != 0 ==> 2 * Abs(p * limit - spent * 1000) <= Abs(limit)
  {
    if limit == 0 then 0 else RoundDiv(spent * 1000, limit)
  }

  /** The enrichment of one listed budget, given its category name and what was spent. */
  function Enrich(b: Budget, category: string, spent: Money): (v: BudgetView)
    ensures v.id == b.id && v.category == category && v.month == b.month && v.limit == b.limit
    ensures v.threshold == b.threshold && v.isActive == b.isActive && v.spent == spent
    ensures v.available + v.spent == v.limit
    ensures v.percentTenths == PercentTenths(spent, b.limit)
    ensures v.alert <==> b.isActive && b.threshold * 10 <= v.percentTenths
  {
    var p := PercentTenths(spent, b.limit);
    BudgetView(b.id, category, b.month, b.limit, b.threshold, b.isActive, spent, b.limit - spent, p,
               b.isActive && b.threshold * 10 <= p)
  }

  lemma MulMono(a: int, b: int, d: int)
    requires d > 0 && a <= b
    ensures a * d <= b * d
  {
    assert b * d - a * d == (b - a) * d;
  }

  /** Rounding to the nearest tenth never falls below a whole number of tenths the exact value reaches. */
  lemma RoundDivAtLeast(n: int, d: int, q: int)
    requires d > 0 && n >= q * d
    ensures RoundDiv(n, d) >= q
  {
    var r := RoundDiv(n, d);
    assert 2 * (n - r * d) <= d;
    assert (q - 1) * d == q * d - d;
    if r <= q - 1 {
      MulMono(r, q - 1, d);
    }
  }

  /** ... and never reaches q when the exact value is more than half a unit below q. */
  lemma RoundDivBelow(n: int, d: int, q: int)
    requires d > 0 && 2 * n < (2 * q - 1) * d
    ensures RoundDiv(n, d) < q
  {
    var r := RoundDiv(n, d);
    assert 2 * (r * d - n) <= d;
    assert (2 * q - 1) * d == 2 * (q * d) - d;
    if r >= q {
      MulMono(q, r, d);
    }
  }

  /** With a positive limit the alert fires once the threshold's share of the limit is spent. */
  lemma AlertWhenThresholdReached(b: Budget, category: string, spent: Money)
    requires b.isActive && b.limit > 0 && spent * 100 >= b.threshold * b.limit
    ensures Enrich(b, category, spent).alert
  {
    RoundDivAtLeast(spent * 1000, b.limit, b.threshold * 10);
  }

  /** It stays off while the spending, rounded to a tenth, is below the threshold. */
  lemma NoAlertBelowThreshold(b: Budget, category: string, spent: Money)
    requires b.limit > 0 && 2 * spent * 1000 < (2 * b.threshold * 10 - 1) * b.limit
    ensures !Enrich(b, category, spent).alert
  {
    RoundDivBelow(spent * 1000, b.limit, b.threshold * 10);
  }

  /** A limit of 500.00 with 85.50 spent: 17.1% used, 414.50 left, no alert at 80%. */
  lemma ScenarioPartlySpent()
    ensures var v := Enrich(Budget(0, 0, 0, "2025-09", 50000, 80, true, false), "Alimentos", 8550);
            v.percentTenths == 171 && v.available == 41450 && !v.alert
  {
    RoundDivExact(171, 50000);
  }

  /** A limit of 200.00 with 160.00 spent: 80.0% used, which alerts at a threshold of 75%. */
  lemma ScenarioOverThreshold()
    ensures var v := Enrich(Budget(0, 0, 0, "2025-09", 20000, 75, true, false), "Salud", 16000);
            v.percentTenths == 800 && v.available == 4000 && v.alert
  {
    RoundDivExact(800, 20000);
  }

  /** A zero limit reports 0% used, and alerts only for a threshold of 0. */
  lemma ZeroLimitAlert(b: Budget, category: string, spent: Money)
    requires b.limit == 0 && b.isActive && 0 <= b.threshold
    ensures Enrich(b, category, spent).percentTenths == 0
    ensures Enrich(b, category, spent).alert <==> b.threshold == 0
  {
  }

  /**
    * `listBudgets`: every active budget of the user (of the month, when one
    * is given), enriched with its category name and spending. A listed
    * budget whose category no longer exists makes the whole request fail.
    */
  function ListBudgets(bs: seq<Budget>, txs: seq<Transactions.Transaction>, cats: seq<Category>, user: Id, month: Option<string>)
    : (r: Result<seq<BudgetView>>)
    ensures var listed := ListedBudgets(bs, user, month);
            && (r.Err? <==> exists k :: 0 <= k < |listed| && NameOf(cats, Some(listed[k].categoryId)).None?)
            && (r.Err? ==> r == Err(INTERNAL_ERROR, "Error al listar presupuestos"))
            && (r.Ok? ==>
                  && |r.value| == |listed|
                  && (forall k :: 0 <= k < |listed| ==>
                        r.value[k] == Enrich(listed[k], NameOf(cats, Some(listed[k].categoryId)).value,
                                             SpentInPeriod(txs, user, listed[k].categoryId, listed[k].month))))
  {
    EnrichAll(ListedBudgets(bs, user, month), txs, cats, user)
  }

  function EnrichAll(listed: seq<Budget>, txs: seq<Transactions.Transaction>, cats: seq<Category>, user: Id)
    : (r: Result<seq<BudgetView>>)
    ensures r.Err? <==> exists k :: 0 <= k < |listed| && NameOf(cats, Some(listed[k].categoryId)).None?
    ensures r.Err? ==> r == Err(INTERNAL_ERROR, "Error al listar presupuestos")
    ensures r.Ok? ==> |r.value| == |listed|
    ensures r.Ok? ==> forall k :: 0 <= k < |listed| ==>
              r.value[k] == Enrich(listed[k], NameOf(cats, Some(listed[k].categoryId)).value,
                                   SpentInPeriod(txs, user, listed[k].categoryId, listed[k].month))
  {
    if listed == [] then Ok([])
    else
      var b := listed[0];
      match NameOf(cats, Some(b.categoryId))
      case None => Err(INTERNAL_ERROR, "Error al listar presupuestos")
      case Some(name) =>
        match EnrichAll(listed[1..], txs, cats, user)
        case Err(s, m) =>
          assert forall k :: 1 <= k < |listed| ==> listed[k] == listed[1..][k - 1];
          Err(s, m)
        case Ok(rest) =>
          assert forall k :: 1 <= k < |listed| ==> listed[k] == listed[1..][k - 1];
          Ok([Enrich(b, name, SpentInPeriod(txs, user, b.categoryId, b.month))] + rest)
  }

  /** Under the unique index the listing of one month shows each category at most once. */
  lemma ListedOncePerCategory(bs: seq<Budget>, user: Id, month: string, i: nat, j: nat)
    requires UniqueKeys(bs) && month != ""
    requires i < j < |ListedBudgets(bs, user, Some(month))|
    ensures ListedBudgets(bs, user, Some(month))[i].categoryId != ListedBudgets(bs, user, Some(month))[j].categoryId
  {
    var r := ListedBudgets(bs, user, Some(month));
    ListedPositions(bs, user, Some(month), i, j);
    var a, b :| 0 <= a < b < |bs| && bs[a] == r[i] && bs[b] == r[j];
    assert r[i] in r && r[j] in r;
    assert !SameKey(bs[a], bs[b]);
  }

  /** Two positions of the listing come from two positions of the table, in order. */
  lemma {:induction false} ListedPositions(bs: seq<Budget>, user: Id, month: Option<string>, i: nat, j: nat)
    requires i < j < |ListedBudgets(bs, user, month)|
    ensures exists a, b :: 0 <= a < b < |bs| && bs[a] == ListedBudgets(bs, user, month)[i]
                           && bs[b] == ListedBudgets(bs, user, month)[j]
  {
    var init, last := bs[..|bs| - 1], bs[|bs| - 1];
    var prev := ListedBudgets(init, user, month);
    var r := ListedBudgets(bs, user, month);
    assert r == prev + (if Listed(last, user, month) then [last] else []);
    assert r[i] == prev[i];
    if j < |prev| {
      assert r[j] == prev[j];
      ListedPositions(init, user, month, i, j);
      var a, b :| 0 <= a < b < |init| && init[a] == prev[i] && init[b] == prev[j];
      assert bs[a] == init[a] && bs[b] == init[b];
    } else {
      assert r[j] == last;
      assert prev[i] in init;
      var a :| 0 <= a < |init| && init[a] == prev[i];
      assert bs[a] == init[a];
    }
  }

  /* ---------- Alert settings ---------- */

  /** The user's notification flags. */
  datatype AlertSettings = AlertSettings(emailAlerts: bool, weeklyReports: bool, monthlyReports: bool)

  /** A request field: absent, JSON null, or a boolean. */
  datatype Flag = Absent | Null | Given(value: bool)

  /** `value ?? previous`: null and undefined keep the previous value. */
  function Nullish(f: Flag, prev: bool): (r: bool)
    ensures f.Given? ==> r == f.value
    ensures !f.Given? ==> r == prev
  {
    match f
    case Given(v) => v
    case _ => prev
  }

  /**
    * `updateAlertSettings`' merge: each flag takes the request's value when
    * one is given and keeps the previous one for null or absent;
    * `thresholdEnabled` changes only when a boolean is supplied.
    */
  function MergeAlertSettings(prev: AlertSettings, thresholdEnabled: bool,
                              email: Flag, weekly: Flag, monthly: Flag, threshold: Flag)
    : (r: (AlertSettings, bool))
    ensures r.0.emailAlerts == (if email.Given? then email.value else prev.emailAlerts)
    ensures r.0.weeklyReports == (if weekly.Given? then weekly.value else prev.weeklyReports)
    ensures r.0.monthlyReports == (if monthly.Given? then monthly.value else prev.monthlyReports)
    ensures r.1 == (if threshold.Given? then threshold.value else thresholdEnabled)
  {
    (AlertSettings(Nullish(email, prev.emailAlerts), Nullish(weekly, prev.weeklyReports),
                   Nullish(monthly, prev.monthlyReports)),
     if threshold.Given? then threshold.value else thresholdEnabled)
  }

  /** A request with nothing given changes nothing, and repeating a request changes nothing more. */
  lemma MergeAlertSettingsProperties(prev: AlertSettings, te: bool, e: Flag, w: Flag, m: Flag, t: Flag)
    ensures MergeAlertSettings(prev, te, Absent, Null, Absent, Null) == (prev, te)
    ensures var once := MergeAlertSettings(prev, te, e, w, m, t);
            MergeAlertSettings(once.0, once.1, e, w, m, t) == once
  {
  }
}

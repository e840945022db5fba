/**
  * The transaction ledger: dated income ('ingreso') and expense ('gasto')
  * movements owned by one user each. Create, update and delete change the
  * table; the listing filters, sorts by date and pages; the category summary
  * groups one month of a user's movements by category name.
  */
module Transactions {
  import opened Base
  import opened Calendar
  import opened Categories
  import Sorting

  datatype Transaction = Transaction(
    id: Id,
    userId: Id,
    kind: Kind,
    amount: Money,
    date: Instant,
    categoryId: Option<Id>,
    description: Option<string>,
    createdAt: Instant)

  /** The sum of the amounts, 0 for no transactions (`$sum` over an empty group). */
  function Total(txs: seq<Transaction>): Money
  {
    if txs == [] then 0 else Total(txs[..|txs| - 1]) + txs[|txs| - 1].amount
  }

  /** `$match`: the transactions p accepts, in table order. */
  function Select(txs: seq<Transaction>, p: Transaction -> bool): (r: seq<Transaction>)
    ensures |r| <= |txs|
    ensures forall t :: t in r <==> t in txs && p(t)
  {
    if txs == [] then []
    else
      var init, last := txs[..|txs| - 1], txs[|txs| - 1];
      assert txs == init + [last];
      Select(init, p) + (if p(last) then [last] else [])
  }

  /** Filtering keeps each accepted transaction as often as it occurs, and drops the others. */
  lemma {:induction false} SelectMultiset(txs: seq<Transaction>, p: Transaction -> bool, t: Transaction)
    ensures multiset(Select(txs, p))[t] == if p(t) then multiset(txs)[t] else 0
  {
    if txs != [] {
      var init, last := txs[..|txs| - 1], txs[|txs| - 1];
      assert txs == init + [last];
      SelectMultiset(init, p, t);
    }
  }

  lemma SelectSnoc(txs: seq<Transaction>, t: Transaction, p: Transaction -> bool)
    ensures Select(txs + [t], p) == Select(txs, p) + (if p(t) then [t] else [])
  {
    assert (txs + [t])[..|txs|] == txs;
  }

  lemma TotalSnoc(txs: seq<Transaction>, t: Transaction)
    ensures Total(txs + [t]) == Total(txs) + t.amount
  {
    assert (txs + [t])[..|txs|] == txs;
  }

  /** Appending one transaction adds its amount to a sum exactly when the filter accepts it. */
  lemma SelectTotalSnoc(txs: seq<Transaction>, t: Transaction, p: Transaction -> bool)
    ensures Total(Select(txs + [t], p)) == Total(Select(txs, p)) + (if p(t) then t.amount else 0)
  {
    SelectSnoc(txs, t, p);
    if p(t) {
      TotalSnoc(Select(txs, p), t);
    } else {
      assert Select(txs, p) + [] == Select(txs, p);
    }
  }

  /** A sum over a filter that accepts nothing is 0. */
  lemma {:induction false} SelectNothing(txs: seq<Transaction>, p: Transaction -> bool)
    requires forall k :: 0 <= k < |txs| ==> !p(txs[k])
    ensures Select(txs, p) == []
    ensures Total(Select(txs, p)) == 0
  {
    if txs != [] {
      SelectNothing(txs[..|txs| - 1], p);
    }
  }

  /** No two transactions share an id, and every id is below the next one to hand out. */
  ghost predicate IdsBelow(txs: seq<Transaction>, next: Id)
  {
    && (forall i :: 0 <= i < |txs| ==> txs[i].id < next)
    && (forall i, j :: 0 <= i < j < |txs| ==> txs[i].id != txs[j].id)
  }

  /** `category_id || null` and `description || null`: an empty description is stored as null. */
  function StoredDescription(d: Option<string>): (r: Option<string>)
    ensures r.Some? ==> r.value != ""
    ensures d.Some? && d.value != "" ==> r == d
    ensures d.None? || d.value == "" ==> r.None?
  {
    if d == Some("") then None else d
  }

  /**
    * The fields of an update request; absent fields keep their value. The
    * body goes to the database as it is, so it may also set `user_id` and
    * hand the transaction to another user.
    */
  datatype TxPatch = TxPatch(
    userId: Option<Id>,
    kind: Option<string>,
    amount: Option<Money>,
    date: Option<Instant>,
    categoryId: Option<Option<Id>>,
    description: Option<Option<string>>)

  /** The update validators: a given type must be one of the two kinds. */
  predicate PatchValid(p: TxPatch)
  {
    p.kind.None? || ParseKind(p.kind.value).Some?
  }

  function ApplyPatch(t: Transaction, p: TxPatch): (r: Transaction)
    requires PatchValid(p)
    ensures r.id == t.id && r.createdAt == t.createdAt
    ensures p.userId.None? ==> r.userId == t.userId
    ensures p.userId.Some? ==> r.userId == p.userId.value
  {
    Transaction(
      t.id, if p.userId.Some? then p.userId.value else t.userId,
      if p.kind.Some? then ParseKind(p.kind.value).value else t.kind,
      if p.amount.Some? then p.amount.value else t.amount,
      if p.date.Some? then p.date.value else t.date,
      if p.categoryId.Some? then p.categoryId.value else t.categoryId,
      if p.description.Some? then p.description.value else t.description,
      t.createdAt)
  }

  /** Sending the same update twice changes nothing the second time. */
  lemma PatchIdempotent(t: Transaction, p: TxPatch)
    requires PatchValid(p)
    ensures ApplyPatch(ApplyPatch(t, p), p) == ApplyPatch(t, p)
  {
  }

  /** `findOne({ _id: id, user_id: user })` */
  function FindOwned(txs: seq<Transaction>, id: Id, user: Id): (r: Option<nat>)
    ensures r.Some? ==> r.value < |txs| && txs[r.value].id == id && txs[r.value].userId == user
    ensures r.None? ==> forall k :: 0 <= k < |txs| ==> txs[k].id != id || txs[k].userId != user
  {
    FindIndex(txs, (t: Transaction) => t.id == id && t.userId == user)
  }

  class Ledger {
    var txs: seq<Transaction>
    var nextId: Id

    ghost predicate Valid()
      reads this
    {
      IdsBelow(txs, nextId)
    }

    constructor ()
      ensures Valid() && txs == []
    {
      txs := [];
      nextId := 0;
    }

    /**
      * `createTransaction`: a type other than 'ingreso' or 'gasto' is refused
      * with 400 before anything is written; a missing amount or date fails
      * the schema (500); otherwise exactly one transaction is appended.
      */
    method Create(user: Id, kind: string, amount: Option<Money>, date: Option<Instant>,
                  categoryId: Option<Id>, description: Option<string>, now: Instant)
      returns (r: Result<Transaction>)
      requires Valid()
      modifies this
      ensures Valid()
      ensures ParseKind(kind).None? ==> r == Err(BAD_REQUEST, "Tipo debe ser ingreso o gasto")
      ensures ParseKind(kind).Some? && (amount.None? || date.None?) ==> r.Err? && r.status == INTERNAL_ERROR
      ensures r.Ok? <==> ParseKind(kind).Some? && amount.Some? && date.Some?
      ensures r.Err? ==> txs == old(txs) && nextId == old(nextId)
      ensures r.Ok? ==> txs == old(txs) + [r.value]
      ensures r.Ok? ==> r.value == Transaction(old(nextId), user, ParseKind(kind).value, amount.value,
                                               date.value, categoryId, StoredDescription(description), now)
      ensures r.Ok? ==> forall t :: t in old(txs) ==> t.id != r.value.id
    {
      var k := ParseKind(kind);
      if k.None? {
        return Err(BAD_REQUEST, "Tipo debe ser ingreso o gasto");
      }
      if amount.None? || date.None? {
        return Err(INTERNAL_ERROR, "Error al crear transacción");
      }
      var t := Transaction(nextId, user, k.value, amount.value, date.value,
                           categoryId, StoredDescription(description), now);
      txs := txs + [t];
      nextId := nextId + 1;
      r := Ok(t);
    }

    /**
      * `updateTransaction`: the update validators run first (an invalid type
      * is a 500 whether or not the record exists); then only the record with
      * this id owned by this user changes, possibly to another owner, and a
      * missing one is a 404.
      */
    method Update(user: Id, id: Id, patch: TxPatch) returns (r: Result<Transaction>)
      requires Valid()
      modifies this
      ensures Valid() && nextId == old(nextId)
      ensures !PatchValid(patch) ==> r.Err? && r.status == INTERNAL_ERROR && txs == old(txs)
      ensures PatchValid(patch) && FindOwned(old(txs), id, user).None? ==>
                r == Err(NOT_FOUND, "Transacción no encontrada") && txs == old(txs)
      ensures PatchValid(patch) && FindOwned(old(txs), id, user).Some? ==>
                var i := FindOwned(old(txs), id, user).value;
                && r == Ok(ApplyPatch(old(txs)[i], patch))
                && txs == old(txs)[i := ApplyPatch(old(txs)[i], patch)]
    {
      if !PatchValid(patch) {
        return Err(INTERNAL_ERROR, "Error al actualizar transacción");
      }
      var found := FindOwned(txs, id, user);
      if found.None? {
        return Err(NOT_FOUND, "Transacción no encontrada");
      }
      var i := found.value;
      var t := ApplyPatch(txs[i], patch);
      txs := txs[i := t];
      r := Ok(t);
    }

    /** `deleteTransaction`: physically removes the owned record, or answers 404. */
    method Delete(user: Id, id: Id) returns (r: Result<string>)
      requires Valid()
      modifies this
      ensures Valid() && nextId == old(nextId)
      ensures FindOwned(old(txs), id, user).None? ==>
                r == Err(NOT_FOUND, "Transacción no encontrada") && txs == old(txs)
      ensures FindOwned(old(txs), id, user).Some? ==>
                var i := FindOwned(old(txs), id, user).value;
                r == Ok("Transacción eliminada") && txs == RemoveAt(old(txs), i)
    {
      var found := FindOwned(txs, id, user);
      if found.None? {
        return Err(NOT_FOUND, "Transacción no encontrada");
      }
      txs := RemoveAt(txs, found.value);
      r := Ok("Transacción eliminada");
    }
  }

  /**
    * An update whose body sets another `user_id` hands the transaction
    * over: its former owner no longer finds it, so a second update or a
    * delete of theirs is a 404.
    */
  lemma HandedOverNotFound(txs: seq<Transaction>, next: Id, i: nat, p: TxPatch, user: Id)
    requires IdsBelow(txs, next) && i < |txs| && PatchValid(p)
    requires p.userId.Some? && p.userId.value != user
    ensures FindOwned(txs[i := ApplyPatch(txs[i], p)], txs[i].id, user).None?
  {
    var after := txs[i := ApplyPatch(txs[i], p)];
    forall k | 0 <= k < |after|
      ensures after[k].id != txs[i].id || after[k].userId != user
    {
      if k != i {
        assert after[k] == txs[k];
        if k < i { assert txs[k].id != txs[i].id; } else { assert txs[i].id != txs[k].id; }
      }
    }
  }

  /* ---------- Listing ---------- */

  /** The query string of the listing; absent parameters are None. */
  datatype TxQuery = TxQuery(
    page: Option<int>,
    limit: Option<int>,
    kind: Option<string>,
    categoryId: Option<Id>,
    startDate: Option<Instant>,
    endDate: Option<Instant>)

  /** The filter document built from the query, one optional condition per parameter. */
  datatype TxFilter = TxFilter(
    userId: Id,
    kind: Option<string>,
    categoryId: Option<Id>,
    from: Option<Instant>,
    to: Option<Instant>)

  function BuildFilter(user: Id, q: TxQuery): (f: TxFilter)
    ensures f.userId == user
    ensures f.kind.Some? <==> q.kind.Some? && q.kind.value != ""
    ensures f.kind.Some? ==> f.kind == q.kind
    ensures f.categoryId == q.categoryId && f.from == q.startDate && f.to == q.endDate
  {
    TxFilter(user, if q.kind == Some("") then None else q.kind, q.categoryId, q.startDate, q.endDate)
  }

  /** The date range of the listing includes both of its ends. */
  predicate Matches(f: TxFilter, t: Transaction)
  {
    && t.userId == f.userId
    && (f.kind.Some? ==> KindName(t.kind) == f.kind.value)
    && (f.categoryId.Some? ==> t.categoryId == f.categoryId)
    && (f.from.Some? ==> AtOrBefore(f.from.value, t.date))
    && (f.to.Some? ==> AtOrBefore(t.date, f.to.value))
  }

  function Matching(txs: seq<Transaction>, f: TxFilter): (r: seq<Transaction>)
    ensures forall t :: t in r <==> t in txs && Matches(f, t)
  {
    Select(txs, (t: Transaction) => Matches(f, t))
  }

  /** `{ date: -1 }`: newer dates first. */
  function NewestDateFirst(): (le: (Transaction, Transaction) -> bool)
    ensures Sorting.IsTotalPreorder(le)
    ensures forall a, b :: le(a, b) <==> AtOrBefore(b.date, a.date)
  {
    (a: Transaction, b: Transaction) => AtOrBefore(b.date, a.date)
  }

  datatype TxPage = TxPage(total: nat, page: int, transactions: seq<Transaction>)

  function Min(a: int, b: int): int
  {
    if a < b then a else b
  }

  /** `.skip(skip).limit(limit)`: a limit of 0 keeps everything, a negative one its absolute value. */
  function Page<T>(s: seq<T>, skip: nat, limit: int): (r: seq<T>)
    ensures |r| == if skip >= |s| then 0 else if limit == 0 then |s| - skip else Min(Abs(limit), |s| - skip)
    ensures skip < |s| ==> r == s[skip..skip + |r|]
  {
    if skip >= |s| then []
    else if limit == 0 then s[skip..]
    else s[skip..skip + Min(Abs(limit), |s| - skip)]
  }

  lemma SliceMultiset<T>(s: seq<T>, i: nat, j: nat)
    requires i <= j <= |s|
    ensures multiset(s[i..j]) <= multiset(s)
  {
    assert s == s[..i] + s[i..j] + s[j..];
  }

  /** A page of a sorted sequence is sorted, and holds some of its elements. */
  lemma PageOfSorted<T>(s: seq<T>, le: (T, T) -> bool, skip: nat, limit: int)
    requires Sorting.SortedBy(s, le)
    ensures Sorting.SortedBy(Page(s, skip, limit), le)
    ensures multiset(Page(s, skip, limit)) <= multiset(s)
  {
    var items := Page(s, skip, limit);
    if skip < |s| {
      SliceMultiset(s, skip, skip + |items|);
      assert forall i :: 0 <= i < |items| ==> items[i] == s[skip + i];
    }
  }

  /** The requested page of the matches, newest date first. */
  function NewestPage(matches: seq<Transaction>, skip: nat, limit: int): (items: seq<Transaction>)
    ensures |items| == if skip >= |matches| then 0 else if limit == 0 then |matches| - skip
                       else Min(Abs(limit), |matches| - skip)
    ensures multiset(items) <= multiset(matches)
    ensures forall i, j :: 0 <= i < j < |items| ==> AtOrBefore(items[j].date, items[i].date)
    ensures exists p :: multiset(p) == multiset(matches) && Sorting.SortedBy(p, NewestDateFirst())
                        && items == Page(p, skip, limit)
  {
    var le := NewestDateFirst();
    var sorted := Sorting.SortBy(matches, le);
    PageOfSorted(sorted, le, skip, limit);
    assert multiset(sorted) == multiset(matches) && Sorting.SortedBy(sorted, le);
    Page(sorted, skip, limit)
  }

  /** Of two matches with different dates, the second page of size one holds the older. */
  lemma SecondPageIsOlder(a: Transaction, b: Transaction)
    requires Before(b.date, a.date)
    ensures NewestPage([b, a], 1, 1) == [b]
  {
    var items := NewestPage([b, a], 1, 1);
    var p: seq<Transaction> :| multiset(p) == multiset([b, a]) && Sorting.SortedBy(p, NewestDateFirst()) && items == Page(p, 1, 1);
    NewerFirst(p, a, b);
  }

  /** Sorted newest date first, two transactions of different dates have one order only. */
  lemma NewerFirst(p: seq<Transaction>, a: Transaction, b: Transaction)
    requires Before(b.date, a.date)
    requires multiset(p) == multiset([b, a]) && Sorting.SortedBy(p, NewestDateFirst())
    ensures p == [a, b]
  {
    assert |p| == 2 && p == [p[0], p[1]];
    PairsWithSameElements(p[0], p[1], b, a);
    assert AtOrBefore(p[1].date, p[0].date);
  }

  /** Two pairs with the same elements are equal or swapped. */
  lemma PairsWithSameElements(x: Transaction, y: Transaction, a: Transaction, b: Transaction)
    requires multiset([x, y]) == multiset([a, b])
    ensures (x == a && y == b) || (x == b && y == a)
  {
    assert x in multiset([a, b]) && y in multiset([a, b]);
    if x == a {
      assert multiset([x, y]) - multiset{x} == multiset{y};
      assert multiset([a, b]) - multiset{a} == multiset{b};
    } else {
      assert multiset([x, y]) - multiset{x} == multiset{y};
      assert multiset([a, b]) - multiset{b} == multiset{a};
    }
  }

  /** `page` and `limit` of the query, 1 and 20 when absent. */
  function PageNumber(q: TxQuery): int
  {
    if q.page.Some? then q.page.value else 1
  }

  function PageSize(q: TxQuery): int
  {
    if q.limit.Some? then q.limit.value else 20
  }

  /**
    * `getUserTransactions`: every matching transaction, newest date first,
    * with the first `(page - 1) * limit` skipped and at most `limit` kept.
    * `total` counts all matches. As in the database, a limit of 0 keeps
    * everything, a negative limit keeps its absolute value, and a negative
    * skip is an error.
    */
  function ListTransactions(txs: seq<Transaction>, user: Id, q: TxQuery): (r: Result<TxPage>)
    ensures r.Err? <==> (PageNumber(q) - 1) * PageSize(q) < 0
    ensures r.Err? ==> r.status == INTERNAL_ERROR
    ensures r.Ok? ==>
              var skip := (PageNumber(q) - 1) * PageSize(q);
              var matches := Matching(txs, BuildFilter(user, q));
              && r.value.total == |matches|
              && r.value.page == PageNumber(q)
              && |r.value.transactions| ==
                   (if skip >= |matches| then 0
                    else if PageSize(q) == 0 then |matches| - skip
                    else Min(Abs(PageSize(q)), |matches| - skip))
              && multiset(r.value.transactions) <= multiset(matches)
              && (forall i, j :: 0 <= i < j < |r.value.transactions| ==>
                    AtOrBefore(r.value.transactions[j].date, r.value.transactions[i].date))
              && (exists p :: multiset(p) == multiset(matches) && Sorting.SortedBy(p, NewestDateFirst())
                               && r.value.transactions == Page(p, skip, PageSize(q)))
  {
    var skip := (PageNumber(q) - 1) * PageSize(q);
    if skip < 0 then Err(INTERNAL_ERROR, "Error al obtener transacciones")
    else
      var matches := Matching(txs, BuildFilter(user, q));
      Ok(TxPage(|matches|, PageNumber(q), NewestPage(matches, skip, PageSize(q))))
  }

  /** A newly created transaction that matches a filter is found exactly once. */
  lemma CreatedIsListedOnce(txs: seq<Transaction>, t: Transaction, f: TxFilter)
    requires forall u :: u in txs ==> u.id != t.id
    requires Matches(f, t)
    ensures multiset(Matching(txs + [t], f))[t] == 1
  {
    assert t !in txs;
    assert multiset(txs + [t])[t] == multiset(txs)[t] + 1;
    SelectMultiset(txs + [t], (u: Transaction) => Matches(f, u), t);
  }

  /** A deleted transaction is no longer found, whatever the filter, when ids are unique. */
  lemma DeletedIsNotListed(txs: seq<Transaction>, next: Id, i: nat, f: TxFilter)
    requires IdsBelow(txs, next) && i < |txs|
    ensures txs[i] !in Matching(RemoveAt(txs, i), f)
  {
    var r := RemoveAt(txs, i);
    forall k | 0 <= k < |r|
      ensures r[k].id != txs[i].id
    {
      if k < i {
        assert r[k] == txs[k];
      } else {
        assert r[k] == txs[k + 1];
      }
    }
    assert txs[i] !in r;
  }

  /* ---------- Summary by category ---------- */

  /** `$match` of one month of one user. */
  predicate InMonthOf(t: Transaction, user: Id, w: Window)
  {
    t.userId == user && InWindow(t.date, w)
  }

  /** An output of `$group` by `{ category, type }`: the group key and its `$sum`. */
  datatype GroupRow = GroupRow(categoryId: Option<Id>, kind: Kind, total: Money)

  /** The sum of the amounts of the transactions in the group (c, k). */
  function GroupTotal(txs: seq<Transaction>, c: Option<Id>, k: Kind): Money
  {
    Total(Select(txs, (t: Transaction) => t.categoryId == c && t.kind == k))
  }

  predicate DistinctKeys(rows: seq<GroupRow>)
  {
    forall i, j :: 0 <= i < j < |rows| ==> (rows[i].categoryId, rows[i].kind) != (rows[j].categoryId, rows[j].kind)
  }

  function FindGroup(rows: seq<GroupRow>, c: Option<Id>, k: Kind): (r: Option<nat>)
    ensures r.Some? ==> r.value < |rows| && rows[r.value].categoryId == c && rows[r.value].kind == k
    ensures r.None? ==> forall i :: 0 <= i < |rows| ==> rows[i].categoryId != c || rows[i].kind != k
  {
    FindIndex(rows, (g: GroupRow) => g.categoryId == c && g.kind == k)
  }

  /** The total of group (c, k) among the rows, 0 when there is no such group. */
  function RowTotal(rows: seq<GroupRow>, c: Option<Id>, k: Kind): Money
  {
    match FindGroup(rows, c, k)
    case Some(i) => rows[i].total
    case None => 0
  }

  /** Rows with the same keys in the same places find a group at the same place. */
  lemma FindGroupSameKeys(rows: seq<GroupRow>, r: seq<GroupRow>, c: Option<Id>, k: Kind)
    requires |r| == |rows|
    requires forall j :: 0 <= j < |r| ==> r[j].categoryId == rows[j].categoryId && r[j].kind == rows[j].kind
    ensures FindGroup(r, c, k) == FindGroup(rows, c, k)
  {
    var x, y := FindGroup(r, c, k), FindGroup(rows, c, k);
    if x.Some? && y.Some? {
      assert !(x.value < y.value) && !(y.value < x.value);
    }
  }

  /** A row appended under a new key is found last; every other key is found where it was. */
  lemma FindGroupSnoc(rows: seq<GroupRow>, g: GroupRow, c: Option<Id>, k: Kind)
    requires FindGroup(rows, g.categoryId, g.kind).None?
    ensures (c, k) == (g.categoryId, g.kind) ==> FindGroup(rows + [g], c, k) == Some(|rows|)
    ensures (c, k) != (g.categoryId, g.kind) ==> FindGroup(rows + [g], c, k) == FindGroup(rows, c, k)
  {
    var r := rows + [g];
    var x, y := FindGroup(r, c, k), FindGroup(rows, c, k);
    assert forall j :: 0 <= j < |rows| ==> r[j] == rows[j];
    assert r[|rows|] == g;
    if x.Some? && y.Some? {
      assert !(x.value < y.value) && !(y.value < x.value);
    }
  }

  /** Adds one transaction to the running `$group`. */
  function AddToGroups(rows: seq<GroupRow>, t: Transaction): (r: seq<GroupRow>)
    requires DistinctKeys(rows)
    ensures DistinctKeys(r)
    ensures forall c, k :: FindGroup(r, c, k).Some? <==>
              FindGroup(rows, c, k).Some? || (c == t.categoryId && k == t.kind)
    ensures forall c, k :: RowTotal(r, c, k) ==
              RowTotal(rows, c, k) + (if c == t.categoryId && k == t.kind then t.amount else 0)
  {
    match FindGroup(rows, t.categoryId, t.kind)
    case Some(i) =>
      var r := rows[i := rows[i].(total := rows[i].total + t.amount)];
      forall c, k
        ensures FindGroup(r, c, k) == FindGroup(rows, c, k)
      {
        FindGroupSameKeys(rows, r, c, k);
      }
      r
    case None =>
      var g := GroupRow(t.categoryId, t.kind, t.amount);
      var r := rows + [g];
      forall c, k
        ensures (c, k) == (g.categoryId, g.kind) ==> FindGroup(r, c, k) == Some(|rows|)
        ensures (c, k) != (g.categoryId, g.kind) ==> FindGroup(r, c, k) == FindGroup(rows, c, k)
      {
        FindGroupSnoc(rows, g, c, k);
      }
      r
  }

  /**
    * The `$group` stage: one row per (category, type) that occurs, in order
    * of first appearance, carrying the sum of that group's amounts.
    */
  function Groups(txs: seq<Transaction>): (rows: seq<GroupRow>)
    ensures DistinctKeys(rows)
  {
    if txs == [] then [] else AddToGroups(Groups(txs[..|txs| - 1]), txs[|txs| - 1])
  }

  /** Each group's row holds the sum of its amounts, and groups without amounts are 0. */
  lemma {:induction false} GroupsTotal(txs: seq<Transaction>, c: Option<Id>, k: Kind)
    ensures RowTotal(Groups(txs), c, k) == GroupTotal(txs, c, k)
  {
    if txs == [] {
    } else {
      var init, t := txs[..|txs| - 1], txs[|txs| - 1];
      assert txs == init + [t];
      var p := (u: Transaction) => u.categoryId == c && u.kind == k;
      var add := if c == t.categoryId && k == t.kind then t.amount else 0;
      GroupsTotal(init, c, k);
      assert RowTotal(Groups(txs), c, k) == RowTotal(Groups(init), c, k) + add;
      SelectTotalSnoc(init, t, p);
      assert Total(Select(txs, p)) == Total(Select(init, p)) + add;
    }
  }

  /** There is a row for a group exactly when some transaction belongs to it. */
  lemma {:induction false} GroupsPresent(txs: seq<Transaction>, c: Option<Id>, k: Kind)
    ensures FindGroup(Groups(txs), c, k).Some? <==> exists t :: t in txs && t.categoryId == c && t.kind == k
  {
    if txs != [] {
      var init, t := txs[..|txs| - 1], txs[|txs| - 1];
      assert txs == init + [t];
      GroupsPresent(init, c, k);
      if exists u :: u in txs && u.categoryId == c && u.kind == k {
        var u :| u in txs && u.categoryId == c && u.kind == k;
        if u != t {
          assert u in init;
        }
      }
    }
  }

  /** A row after `$lookup` and `$project`: the category name or 'Sin categoría'. */
  datatype SummaryRow = SummaryRow(category: string, kind: Kind, total: Money)

  const UNCATEGORIZED: string := "Sin categoría"

  function CategoryLabel(cats: seq<Category>, c: Option<Id>): (name: string)
    ensures NameOf(cats, c).Some? ==> name == NameOf(cats, c).value
    ensures NameOf(cats, c).None? ==> name == UNCATEGORIZED
  {
    match NameOf(cats, c)
    case Some(n) => n
    case None => UNCATEGORIZED
  }

  function Project(rows: seq<GroupRow>, cats: seq<Category>): (r: seq<SummaryRow>)
    ensures |r| == |rows|
    ensures forall i :: 0 <= i < |r| ==>
              r[i] == SummaryRow(CategoryLabel(cats, rows[i].categoryId), rows[i].kind, rows[i].total)
  {
    if rows == [] then []
    else [SummaryRow(CategoryLabel(cats, rows[0].categoryId), rows[0].kind, rows[0].total)] + Project(rows[1..], cats)
  }

  /** Each entry of the summary carries both kinds. */
  datatype KindTotals = KindTotals(ingreso: Money, gasto: Money)

  function SetKind(kt: KindTotals, k: Kind, total: Money): KindTotals
  {
    match k
    case Ingreso => kt.(ingreso := total)
    case Gasto => kt.(gasto := total)
  }

  function KindTotal(kt: KindTotals, k: Kind): Money
  {
    match k
    case Ingreso => kt.ingreso
    case Gasto => kt.gasto
  }

  /**
    * The `forEach` over the rows: the key is created with both kinds at 0,
    * then the row's kind is overwritten with the row's total.
    */
  function Grouped(rows: seq<SummaryRow>): map<string, KindTotals>
  {
    if rows == [] then map[]
    else
      var m := Grouped(rows[..|rows| - 1]);
      var row := rows[|rows| - 1];
      var entry := if row.category in m then m[row.category] else KindTotals(0, 0);
      m[row.category := SetKind(entry, row.kind, row.total)]
  }

  /** The total of the last row with this category and kind, 0 when there is none. */
  function LastTotal(rows: seq<SummaryRow>, name: string, k: Kind): Money
  {
    if rows == [] then 0
    else if rows[|rows| - 1].category == name && rows[|rows| - 1].kind == k then rows[|rows| - 1].total
    else LastTotal(rows[..|rows| - 1], name, k)
  }

  lemma {:induction false} LastTotalAbsent(rows: seq<SummaryRow>, name: string, k: Kind)
    requires forall i :: 0 <= i < |rows| ==> rows[i].category != name
    ensures LastTotal(rows, name, k) == 0
  {
    if rows != [] {
      LastTotalAbsent(rows[..|rows| - 1], name, k);
    }
  }

  /**
    * What the summary holds: a key for every category name that has a row,
    * and for each kind the total of the last row with that name and kind,
    * or 0.
    */
  lemma {:induction false} GroupedAt(rows: seq<SummaryRow>, name: string)
    ensures name in Grouped(rows) <==> exists i :: 0 <= i < |rows| && rows[i].category == name
    ensures name in Grouped(rows) ==>
              Grouped(rows)[name] == KindTotals(LastTotal(rows, name, Ingreso), LastTotal(rows, name, Gasto))
  {
    if rows != [] {
      var init, row := rows[..|rows| - 1], rows[|rows| - 1];
      GroupedAt(init, name);
      assert forall i :: 0 <= i < |init| ==> init[i] == rows[i];
      if row.category == name && name !in Grouped(init) {
        LastTotalAbsent(init, name, Ingreso);
        LastTotalAbsent(init, name, Gasto);
      }
      if exists i :: 0 <= i < |rows| && rows[i].category == name {
        var i :| 0 <= i < |rows| && rows[i].category == name;
        if i < |init| {
          assert init[i].category == name;
        }
      }
    }
  }

  /** The rows the aggregation pipeline yields for one user and one month window. */
  function CategoryRows(txs: seq<Transaction>, cats: seq<Category>, user: Id, w: Window): seq<SummaryRow>
  {
    Project(Groups(Select(txs, (t: Transaction) => InMonthOf(t, user, w))), cats)
  }

  /**
    * `getSummaryByCategory`: 400 when year or month is missing; otherwise
    * the user's transactions of that calendar month, grouped and named, are
    * folded into a dictionary keyed by category name.
    */
  method SummaryByCategory(txs: seq<Transaction>, cats: seq<Category>, user: Id,
                           year: Option<int>, month: Option<int>)
    returns (r: Result<map<string, KindTotals>>)
    ensures year.None? || month.None? ==> r == Err(BAD_REQUEST, "Faltan year y/o month")
    ensures year.Some? && month.Some? ==>
              r == Ok(Grouped(CategoryRows(txs, cats, user, MonthWindow(year.value, month.value))))
  {
    if year.None? || month.None? {
      return Err(BAD_REQUEST, "Faltan year y/o month");
    }
    var raw := CategoryRows(txs, cats, user, MonthWindow(year.value, month.value));
    var grouped := GroupByName(raw);
    r := Ok(grouped);
  }

  /** One more row folded into the dictionary, as one turn of the `forEach` does it. */
  lemma GroupedSnoc(rows: seq<SummaryRow>, i: nat)
    requires i < |rows|
    ensures var m := Grouped(rows[..i]);
            var entry := if rows[i].category in m then m[rows[i].category] else KindTotals(0, 0);
            Grouped(rows[..i + 1]) == m[rows[i].category := SetKind(entry, rows[i].kind, rows[i].total)]
  {
    assert rows[..i + 1][..i] == rows[..i];
  }

  /**
    * The `forEach` that turns the rows into the response dictionary: each
    * row makes sure its name has an entry, then overwrites its kind.
    */
  method GroupByName(raw: seq<SummaryRow>) returns (grouped: map<string, KindTotals>)
    ensures grouped == Grouped(raw)
  {
    grouped := map[];
    var i := 0;
    while i < |raw|
      invariant 0 <= i <= |raw|
      invariant grouped == Grouped(raw[..i])
    {
      var row := raw[i];
      var key := row.category;
      GroupedSnoc(raw, i);
      if key !in grouped {
        grouped := grouped[key := KindTotals(0, 0)];
      }
      grouped := grouped[key := SetKind(grouped[key], row.kind, row.total)];
      i := i + 1;
    }
    assert raw[..|raw|] == raw;
  }

  /** Transactions of the month without a category appear under 'Sin categoría'. */
  lemma UncategorizedIsKeyed(txs: seq<Transaction>, cats: seq<Category>, w: Window, t: Transaction, user: Id)
    requires t in txs && InMonthOf(t, user, w) && t.categoryId.None?
    ensures UNCATEGORIZED in Grouped(CategoryRows(txs, cats, user, w))
  {
    var sel := Select(txs, (u: Transaction) => InMonthOf(u, user, w));
    var groups := Groups(sel);
    var rows := Project(groups, cats);
    assert t in sel;
    GroupsPresent(sel, t.categoryId, t.kind);
    var i := FindGroup(groups, t.categoryId, t.kind).value;
    assert rows[i].category == UNCATEGORIZED;
    GroupedAt(rows, UNCATEGORIZED);
  }
}

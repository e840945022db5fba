/**
  * Savings goals: a named target amount with a due date. Names are stored
  * trimmed and a user has at most one live goal per name; deleting is a
  * soft delete. The listing reports progress, whether the goal is overdue
  * and the monthly quota still needed.
  */
module Savings {
  import opened Base
  import opened Calendar
  import opened Text

  datatype Goal = Goal(
    id: Id,
    userId: Id,
    name: string,
    description: string,
    target: Money,
    current: Money,
    due: Instant,
    isDeleted: bool)

  predicate Live(g: Goal)
  {
    !g.isDeleted
  }

  /** The live goals of the store hold pairwise different (user, name) pairs. */
  predicate LiveNamesUnique(gs: seq<Goal>)
  {
    forall i, j :: 0 <= i < j < |gs| && Live(gs[i]) && Live(gs[j]) ==>
      gs[i].userId != gs[j].userId || gs[i].name != gs[j].name
  }

  /** `findOne({ user_id, name, isDeleted: false })` */
  function FindLiveNamed(gs: seq<Goal>, user: Id, name: string): (r: Option<nat>)
    ensures r.Some? ==> r.value < |gs| && Live(gs[r.value]) && gs[r.value].userId == user && gs[r.value].name == name
    ensures r.None? ==> forall k :: 0 <= k < |gs| && Live(gs[k]) && gs[k].userId == user ==> gs[k].name != name
  {
    FindIndex(gs, (g: Goal) => Live(g) && g.userId == user && g.name == name)
  }

  /** `{ _id: id, user_id: user, isDeleted: false }`: only live goals of the user are found. */
  function FindOwnedLive(gs: seq<Goal>, id: Id, user: Id): (r: Option<nat>)
    ensures r.Some? ==> r.value < |gs| && gs[r.value].id == id && gs[r.value].userId == user && Live(gs[r.value])
    ensures r.None? ==> forall k :: 0 <= k < |gs| ==> gs[k].id != id || gs[k].userId != user || !Live(gs[k])
  {
    FindIndex(gs, (g: Goal) => g.id == id && g.userId == user && Live(g))
  }

  const DUPLICATE_NAME: string := "Ya tienes una meta con ese nombre."
  const GOAL_NOT_FOUND: string := "Meta no encontrada"

  /** `description || ''` */
  function DescriptionOrEmpty(d: Option<string>): (r: string)
    ensures d.Some? ==> r == d.value
    ensures d.None? ==> r == ""
  {
    if d.Some? then d.value else ""
  }

  /**
    * The fields of an update request; the name is trimmed as the schema's
    * setter does. The body goes to the database as it is, so it may also set
    * `user_id` (the goal changes hands) and `isDeleted` (a soft delete).
    */
  datatype GoalPatch = GoalPatch(
    userId: Option<Id>,
    name: Option<string>,
    description: Option<string>,
    target: Option<Money>,
    current: Option<Money>,
    due: Option<Instant>,
    isDeleted: Option<bool>)

  /** The update validators: a name that is set must not be empty once trimmed. */
  predicate PatchValid(p: GoalPatch)
  {
    p.name.None? || Trim(p.name.value) != ""
  }

  function ApplyPatch(g: Goal, p: GoalPatch): (r: Goal)
    ensures r.id == g.id
    ensures p.userId.None? ==> r.userId == g.userId
    ensures p.userId.Some? ==> r.userId == p.userId.value
    ensures p.isDeleted.None? ==> r.isDeleted == g.isDeleted
    ensures p.isDeleted.Some? ==> r.isDeleted == p.isDeleted.value
    ensures p.name.Some? ==> r.name == Trim(p.name.value)
    ensures p.name.None? ==> r.name == g.name
  {
    Goal(
      g.id, if p.userId.Some? then p.userId.value else g.userId,
      if p.name.Some? then Trim(p.name.value) else g.name,
      if p.description.Some? then p.description.value else g.description,
      if p.target.Some? then p.target.value else g.target,
      if p.current.Some? then p.current.value else g.current,
      if p.due.Some? then p.due.value else g.due,
      if p.isDeleted.Some? then p.isDeleted.value else g.isDeleted)
  }

  /** Sending the same update twice changes nothing the second time. */
  lemma PatchIdempotent(g: Goal, p: GoalPatch)
    ensures ApplyPatch(ApplyPatch(g, p), p) == ApplyPatch(g, p)
  {
    if p.name.Some? {
      TrimIdempotent(p.name.value);
    }
  }

  /**
    * Whether g, put at position i, would be a second live goal of its user
    * with its name. A goal that the update marks deleted clashes with none.
    */
  predicate LiveTwinElsewhere(gs: seq<Goal>, i: nat, g: Goal)
  {
    Live(g) && exists k :: 0 <= k < |gs| && k != i && Live(gs[k]) && gs[k].userId == g.userId && gs[k].name == g.name
  }

  /**
    * The table's invariant: ids are unique and below the next one, names
    * are stored trimmed and non-empty, and live names are unique per user.
    */
  ghost predicate GoalsValid(gs: seq<Goal>, nextId: Id)
  {
    && (forall i :: 0 <= i < |gs| ==> gs[i].id < nextId && gs[i].name != "" && IsTrimmed(gs[i].name))
    && (forall i, j :: 0 <= i < j < |gs| ==> gs[i].id != gs[j].id)
    && LiveNamesUnique(gs)
  }

  class GoalStore {
    var goals: seq<Goal>
    var nextId: Id

    ghost predicate Valid()
      reads this
    {
      GoalsValid(goals, nextId)
    }

    constructor ()
      ensures Valid() && goals == []
    {
      goals := [];
      nextId := 0;
    }

    /**
      * `createSavingsGoal`: a missing name fails at the trim (500); a live
      * goal of the user with the trimmed name gives 409; an empty trimmed
      * name, or a missing target or due date, fails validation (500).
      * Otherwise one goal is appended with the trimmed name, nothing saved
      * yet and the description or ''.
      */
    method Create(user: Id, name: Option<string>, description: Option<string>, target: Option<Money>,
                  due: Option<Instant>)
      returns (r: Result<Goal>)
      requires Valid()
      modifies this
      ensures Valid()
      ensures r.Err? ==> goals == old(goals) && nextId == old(nextId)
      ensures name.None? ==> r.Err? && r.status == INTERNAL_ERROR
      ensures name.Some? && FindLiveNamed(old(goals), user, Trim(name.value)).Some? ==>
                r == Err(CONFLICT, DUPLICATE_NAME)
      ensures r.Ok? <==>
                && name.Some? && FindLiveNamed(old(goals), user, Trim(name.value)).None?
                && Trim(name.value) != "" && target.Some? && due.Some?
      ensures r.Err? && r.status != CONFLICT ==> r.status == INTERNAL_ERROR
      ensures r.Ok? ==> r.value == Goal(old(nextId), user, Trim(name.value), DescriptionOrEmpty(description),
                                        target.value, 0, due.value, false)
      ensures r.Ok? ==> goals == old(goals) + [r.value]
    {
      if name.None? {
        return Err(INTERNAL_ERROR, "Error al crear meta de ahorro");
      }
      var trimmed := Trim(name.value);
      if FindLiveNamed(goals, user, trimmed).Some? {
        return Err(CONFLICT, DUPLICATE_NAME);
      }
      if trimmed == "" || target.None? || due.None? {
        return Err(INTERNAL_ERROR, "Error al crear meta de ahorro");
      }
      var g := Goal(nextId, user, trimmed, DescriptionOrEmpty(description), target.value, 0, due.value, false);
      AppendKeepsGoalsValid(goals, nextId, g);
      goals := goals + [g];
      nextId := nextId + 1;
      r := Ok(g);
    }

    /**
      * `updateSavingsGoal`: the validators of the fields being set run first
      * (500); only a live goal of the user is found (404 otherwise). The
      * patched goal may belong to another user or be marked deleted; one
      * that stays live with the name of another live goal of its owner
      * breaks the unique index (500). As with `Delete`, the index is the
      * intended one on live goals; `UpdateAsWritten` checks the actual one.
      */
    method Update(user: Id, id: Id, patch: GoalPatch) returns (r: Result<Goal>)
      requires Valid()
      modifies this
      ensures Valid() && nextId == old(nextId)
      ensures r.Err? ==> goals == old(goals)
      ensures !PatchValid(patch) ==> r.Err? && r.status == INTERNAL_ERROR
      ensures PatchValid(patch) && FindOwnedLive(old(goals), id, user).None? ==> r == Err(NOT_FOUND, GOAL_NOT_FOUND)
      ensures PatchValid(patch) && FindOwnedLive(old(goals), id, user).Some? ==>
                var i := FindOwnedLive(old(goals), id, user).value;
                var g := ApplyPatch(old(goals)[i], patch);
                && (LiveTwinElsewhere(old(goals), i, g) ==> r.Err? && r.status == INTERNAL_ERROR)
                && (!LiveTwinElsewhere(old(goals), i, g) ==> r == Ok(g) && goals == old(goals)[i := g])
    {
      if !PatchValid(patch) {
        return Err(INTERNAL_ERROR, "Error al actualizar meta");
      }
      var found := FindOwnedLive(goals, id, user);
      if found.None? {
        return Err(NOT_FOUND, GOAL_NOT_FOUND);
      }
      var i := found.value;
      var g := ApplyPatch(goals[i], patch);
      if LiveTwinElsewhere(goals, i, g) {
        return Err(INTERNAL_ERROR, "Error al actualizar meta");
      }
      goals := goals[i := g];
      r := Ok(g);
    }

    /**
      * `deleteSavingsGoal`, as intended: marks the user's live goal deleted
      * and changes nothing else, or answers 404 when there is none (so a
      * second delete of the same goal is a 404).
      */
    method Delete(user: Id, id: Id) returns (r: Result<string>)
      requires Valid()
      modifies this
      ensures Valid() && nextId == old(nextId)
      ensures FindOwnedLive(old(goals), id, user).None? ==>
                r == Err(NOT_FOUND, GOAL_NOT_FOUND) && goals == old(goals)
      ensures FindOwnedLive(old(goals), id, user).Some? ==>
                var i := FindOwnedLive(old(goals), id, user).value;
                r == Ok("Meta eliminada") && goals == old(goals)[i := old(goals)[i].(isDeleted := true)]
      ensures r.Ok? ==> FindOwnedLive(goals, id, user).None?
    {
      var found := FindOwnedLive(goals, id, user);
      if found.None? {
        return Err(NOT_FOUND, GOAL_NOT_FOUND);
      }
      var i := found.value;
      MarkDeletedKeepsValid(goals, nextId, i, user);
      goals := goals[i := goals[i].(isDeleted := true)];
      r := Ok("Meta eliminada");
    }
  }

  /** Marking a goal deleted keeps the table valid and hides that goal's id from every lookup. */
  lemma MarkDeletedKeepsValid(gs: seq<Goal>, nextId: Id, i: nat, user: Id)
    requires GoalsValid(gs, nextId) && i < |gs|
    ensures GoalsValid(gs[i := gs[i].(isDeleted := true)], nextId)
    ensures FindOwnedLive(gs[i := gs[i].(isDeleted := true)], gs[i].id, user).None?
  {
    var r := gs[i := gs[i].(isDeleted := true)];
    DeletePreservesLiveUniqueness(gs, i);
    forall k | 0 <= k < |r| ensures r[k].id != gs[i].id || r[k].userId != user || !Live(r[k]) {
      if k != i {
        assert r[k] == gs[k];
        if k < i { assert gs[k].id != gs[i].id; } else { assert gs[i].id != gs[k].id; }
      }
    }
  }

  /**
    * An update whose body sets another `user_id` or `isDeleted: true` takes
    * the goal away from its owner: it is no longer found for them, so their
    * next update or delete of it is a 404.
    */
  lemma PatchedAwayNotFound(gs: seq<Goal>, nextId: Id, i: nat, p: GoalPatch, user: Id)
    requires GoalsValid(gs, nextId) && i < |gs|
    requires (p.userId.Some? && p.userId.value != user) || p.isDeleted == Some(true)
    ensures FindOwnedLive(gs[i := ApplyPatch(gs[i], p)], gs[i].id, user).None?
  {
    var after := gs[i := ApplyPatch(gs[i], p)];
    forall k | 0 <= k < |after|
      ensures after[k].id != gs[i].id || after[k].userId != user || !Live(after[k])
    {
      if k != i {
        assert after[k] == gs[k];
        if k < i { assert gs[k].id != gs[i].id; } else { assert gs[i].id != gs[k].id; }
      }
    }
  }

  /** A new goal with the next id, a trimmed non-empty name and no live twin keeps the table valid. */
  lemma AppendKeepsGoalsValid(gs: seq<Goal>, nextId: Id, g: Goal)
    requires GoalsValid(gs, nextId) && g.id == nextId && g.name != "" && IsTrimmed(g.name)
    requires FindLiveNamed(gs, g.userId, g.name).None?
    ensures GoalsValid(gs + [g], nextId + 1)
  {
    AppendKeepsLiveNamesUnique(gs, g);
    var r := gs + [g];
    assert forall i :: 0 <= i < |gs| ==> r[i] == gs[i];
  }

  lemma AppendKeepsLiveNamesUnique(gs: seq<Goal>, g: Goal)
    requires LiveNamesUnique(gs) && FindLiveNamed(gs, g.userId, g.name).None?
    ensures LiveNamesUnique(gs + [g])
  {
    var r := gs + [g];
    forall i, j | 0 <= i < j < |r| && Live(r[i]) && Live(r[j])
      ensures r[i].userId != r[j].userId || r[i].name != r[j].name
    {
      if j == |gs| {
        assert r[i] == gs[i];
      } else {
        assert r[i] == gs[i] && r[j] == gs[j];
      }
    }
  }

  /**
    * The soft delete as the schema's unique index on (user_id, name,
    * isDeleted) actually lets it through: flagging a goal deleted fails
    * (500) when the user already has a deleted goal of the same name.
    */
  function DeleteAsWritten(gs: seq<Goal>, user: Id, id: Id): (r: Result<seq<Goal>>)
    ensures FindOwnedLive(gs, id, user).None? ==> r == Err(NOT_FOUND, GOAL_NOT_FOUND)
    ensures r.Ok? ==> var i := FindOwnedLive(gs, id, user).value;
                      r.value == gs[i := gs[i].(isDeleted := true)]
    ensures FindOwnedLive(gs, id, user).Some? ==>
              var i := FindOwnedLive(gs, id, user).value;
              (r.Err? <==> exists k :: 0 <= k < |gs| && gs[k].isDeleted && gs[k].userId == user && gs[k].name == gs[i].name)
  {
    match FindOwnedLive(gs, id, user)
    case None => Err(NOT_FOUND, GOAL_NOT_FOUND)
    case Some(i) =>
      if exists k :: 0 <= k < |gs| && gs[k].isDeleted && gs[k].userId == user && gs[k].name == gs[i].name
      then Err(INTERNAL_ERROR, "Error al eliminar meta")
      else Ok(gs[i := gs[i].(isDeleted := true)])
  }

  /**
    * Creating "Viaje", deleting it, creating "Viaje" again and deleting the
    * new one: the second delete fails with 500 as written, although the
    * create before it was accepted.
    */
  lemma SecondDeleteOfSameNameFails(due: Instant)
    ensures var gs := [Goal(0, 7, "Viaje", "", 100000, 0, due, true), Goal(1, 7, "Viaje", "", 100000, 0, due, false)];
            && LiveNamesUnique(gs)
            && FindLiveNamed(gs[..1], 7, "Viaje").None?
            && DeleteAsWritten(gs, 7, 1) == Err(INTERNAL_ERROR, "Error al eliminar meta")
  {
    var gs := [Goal(0, 7, "Viaje", "", 100000, 0, due, true), Goal(1, 7, "Viaje", "", 100000, 0, due, false)];
    assert gs[1].id == 1 && gs[1].userId == 7 && Live(gs[1]) && gs[0].id != 1;
    assert FindOwnedLive(gs, 1, 7) == Some(1);
    assert gs[0].isDeleted && gs[0].userId == 7 && gs[0].name == gs[1].name;
  }

  /**
    * Whether g, put at position i, would repeat another goal's key under
    * the schema's actual unique index on (user_id, name, isDeleted).
    */
  predicate IndexTwinElsewhere(gs: seq<Goal>, i: nat, g: Goal)
  {
    exists k :: 0 <= k < |gs| && k != i && gs[k].userId == g.userId && gs[k].name == g.name && gs[k].isDeleted == g.isDeleted
  }

  /** While the updated goal stays live, the actual index and the intended one refuse the same updates. */
  lemma IndexesAgreeWhileLive(gs: seq<Goal>, i: nat, g: Goal)
    requires Live(g)
    ensures IndexTwinElsewhere(gs, i, g) <==> LiveTwinElsewhere(gs, i, g)
  {
  }

  /**
    * `updateSavingsGoal` as the actual unique index lets it through: the
    * same validators and lookup as `GoalStore.Update`, but the patched goal
    * clashes with any other goal of its owner that has its name and its
    * deleted flag, so a body with `isDeleted: true` fails (500) when the
    * owner already has a deleted goal of that name.
    */
  function UpdateAsWritten(gs: seq<Goal>, user: Id, id: Id, patch: GoalPatch): (r: Result<seq<Goal>>)
    ensures !PatchValid(patch) ==> r == Err(INTERNAL_ERROR, "Error al actualizar meta")
    ensures PatchValid(patch) && FindOwnedLive(gs, id, user).None? ==> r == Err(NOT_FOUND, GOAL_NOT_FOUND)
    ensures PatchValid(patch) && FindOwnedLive(gs, id, user).Some? ==>
              var i := FindOwnedLive(gs, id, user).value;
              var g := ApplyPatch(gs[i], patch);
              && (IndexTwinElsewhere(gs, i, g) ==> r == Err(INTERNAL_ERROR, "Error al actualizar meta"))
              && (!IndexTwinElsewhere(gs, i, g) ==> r == Ok(gs[i := g]))
  {
    if !PatchValid(patch) then Err(INTERNAL_ERROR, "Error al actualizar meta")
    else
      match FindOwnedLive(gs, id, user)
      case None => Err(NOT_FOUND, GOAL_NOT_FOUND)
      case Some(i) =>
        var g := ApplyPatch(gs[i], patch);
        if IndexTwinElsewhere(gs, i, g) then Err(INTERNAL_ERROR, "Error al actualizar meta")
        else Ok(gs[i := g])
  }

  /**
    * A body of `{ isDeleted: true }` on the live "Viaje" of a user who
    * already deleted a "Viaje": the actual index refuses it (500), where
    * the intended index of `GoalStore.Update` lets the update through.
    */
  lemma SoftDeletingUpdateFails(due: Instant)
    ensures var gs := [Goal(0, 7, "Viaje", "", 100000, 0, due, true), Goal(1, 7, "Viaje", "", 100000, 0, due, false)];
            var p := GoalPatch(None, None, None, None, None, None, Some(true));
            && LiveNamesUnique(gs)
            && PatchValid(p)
            && FindOwnedLive(gs, 1, 7) == Some(1)
            && !LiveTwinElsewhere(gs, 1, ApplyPatch(gs[1], p))
            && UpdateAsWritten(gs, 7, 1, p) == Err(INTERNAL_ERROR, "Error al actualizar meta")
  {
    var gs := [Goal(0, 7, "Viaje", "", 100000, 0, due, true), Goal(1, 7, "Viaje", "", 100000, 0, due, false)];
    var p := GoalPatch(None, None, None, None, None, None, Some(true));
    assert gs[1].id == 1 && gs[1].userId == 7 && Live(gs[1]) && gs[0].id != 1;
    assert FindOwnedLive(gs, 1, 7) == Some(1);
    var g := ApplyPatch(gs[1], p);
    assert gs[0].userId == g.userId && gs[0].name == g.name && gs[0].isDeleted == g.isDeleted;
  }

  /** As intended, deleting a live goal keeps at most one live goal per name and always succeeds. */
  lemma DeletePreservesLiveUniqueness(gs: seq<Goal>, i: nat)
    requires LiveNamesUnique(gs) && i < |gs|
    ensures LiveNamesUnique(gs[i := gs[i].(isDeleted := true)])
  {
  }

  /* ---------- Listing ---------- */

  datatype Status = Activa | Vencida

  /** `new Date() > due_date`: overdue exactly when the due date is strictly in the past. */
  function StatusAt(due: Instant, now: Instant): (s: Status)
    ensures s == Vencida <==> Before(due, now)
  {
    if Before(due, now) then Vencida else Activa
  }

  /**
    * `Math.max(0, months from now to the due date)`: calendar months between
    * the two months, never negative.
    */
  function MonthsLeft(now: Instant, due: Instant): (n: nat)
    ensures n == if due.monthIndex <= now.monthIndex then 0 else due.monthIndex - now.monthIndex
  {
    var diff := MonthsBetween(now, due);
    if diff < 0 then 0 else diff
  }

  /**
    * `getMonthlyQuota`, in cents rounded as `toFixed(2)` does: what remains
    * when the due month is the current one (or past), otherwise what remains
    * spread over the months left plus the current one.
    */
  function MonthlyQuota(target: Money, current: Money, now: Instant, due: Instant): (q: Money)
    ensures MonthsLeft(now, due) == 0 ==> q == target - current
    ensures MonthsLeft(now, due) > 0 ==>
              2 * Abs(q * (MonthsLeft(now, due) + 1) - (target - current)) <= MonthsLeft(now, due) + 1
  {
    var months := MonthsLeft(now, due);
    if months == 0 then target - current else RoundDiv(target - current, months + 1)
  }

  /**
    * When what remains divides evenly over the months from now to the due
    * month, paying the quota every month covers it to the cent.
    */
  lemma QuotaCoversRemaining(target: Money, current: Money, now: Instant, due: Instant)
    ensures var n := MonthsLeft(now, due) + 1;
            (target - current) % n == 0 ==> MonthlyQuota(target, current, now, due) * n == target - current
  {
    var n := MonthsLeft(now, due) + 1;
    if (target - current) % n == 0 && n > 1 {
      var q := (target - current) / n;
      assert q * n == target - current;
      RoundDivExact(q, n);
    }
  }

  /** Saving 1000.00 with 820.00 saved and two months to go: 60.00 a month. */
  lemma ScenarioQuota()
    ensures MonthlyQuota(100000, 82000, Instant(2025 * 12 + 8, 0), Instant(2025 * 12 + 10, 0)) == 6000
  {
    RoundDivExact(6000, 3);
  }

  /**
    * `Math.min(100, current / target * 100)` rounded to two decimals, in
    * hundredths of a percent; 0 for a zero target.
    */
  function ProgressHundredths(target: Money, current: Money): (p: int)
    ensures p <= 10000
    ensures target == 0 ==> p == 0
    ensures target > 0 && current >= target ==> p == 10000
    ensures target > 0 && current >= 0 ==> p >= 0
    ensures target != 0 && p < 10000 ==> 2 * Abs(p * target - current * 10000) <= Abs(target)
  {
    if target == 0 then 0
    else
      var exact := RoundDiv(current * 10000, target);
      assert target > 0 && current >= target ==> exact >= 10000 by {
        if target > 0 && current >= target {
          ProgressAtLeastFull(current, target);
        }
      }
      if exact < 10000 then exact else 10000
  }

  lemma ProgressAtLeastFull(current: Money, target: Money)
    requires target > 0 && current >= target
    ensures RoundDiv(current * 10000, target) >= 10000
  {
    var r := RoundDiv(current * 10000, target);
    assert current * 10000 >= target * 10000;
    assert 2 * (current * 10000 - r * target) <= target;
    assert 9999 * target == 10000 * target - target;
    if r <= 9999 {
      MulUpTo(r, 9999, target);
    }
  }

  lemma MulUpTo(a: int, b: int, d: int)
    requires d > 0 && a <= b
    ensures a * d <= b * d
  {
    assert b * d - a * d == (b - a) * d;
  }

  /** What the listing reports for one goal. */
  datatype GoalView = GoalView(
    id: Id,
    name: string,
    description: string,
    target: Money,
    current: Money,
    due: Instant,
    status: Status,
    progress: int,
    monthlyQuota: Money)

  function View(g: Goal, now: Instant): (v: GoalView)
    ensures v.id == g.id && v.name == g.name && v.description == g.description
    ensures v.target == g.target && v.current == g.current && v.due == g.due
    ensures v.status == StatusAt(g.due, now)
    ensures v.progress == ProgressHundredths(g.target, g.current)
    ensures v.monthlyQuota == MonthlyQuota(g.target, g.current, now, g.due)
  {
    GoalView(g.id, g.name, g.description, g.target, g.current, g.due, StatusAt(g.due, now),
             ProgressHundredths(g.target, g.current), MonthlyQuota(g.target, g.current, now, g.due))
  }

  /** `find({ user_id, isDeleted: false })` */
  function LiveGoalsOf(gs: seq<Goal>, user: Id): (r: seq<Goal>)
    ensures forall g :: g in r <==> g in gs && g.userId == user && Live(g)
    ensures |r| <= |gs|
  {
    if gs == [] then []
    else
      var init, last := gs[..|gs| - 1], gs[|gs| - 1];
      assert gs == init + [last];
      LiveGoalsOf(init, user) + (if last.userId == user && Live(last) then [last] else [])
  }

  /** pos[j] is where the j-th listed goal sits in the table, and the positions increase. */
  predicate InTablePositions(gs: seq<Goal>, r: seq<Goal>, pos: seq<nat>)
  {
    && |pos| == |r|
    && (forall j :: 0 <= j < |pos| ==> pos[j] < |gs| && gs[pos[j]] == r[j])
    && (forall j, k :: 0 <= j < k < |pos| ==> pos[j] < pos[k])
  }

  /** Positions in a table stay positions once a goal is appended, and the new last one extends them. */
  lemma PositionsSnoc(gs: seq<Goal>, r: seq<Goal>, pos: seq<nat>, last: Goal)
    requires InTablePositions(gs, r, pos)
    ensures InTablePositions(gs + [last], r, pos)
    ensures InTablePositions(gs + [last], r + [last], pos + [|gs|])
  {
  }

  /** The listing keeps the user's live goals in table order. */
  lemma {:induction false} LiveGoalsInTableOrder(gs: seq<Goal>, user: Id)
    ensures exists pos: seq<nat> :: InTablePositions(gs, LiveGoalsOf(gs, user), pos)
  {
    if gs == [] {
      assert LiveGoalsOf(gs, user) == [];
      assert InTablePositions(gs, [], []);
    } else {
      var init, last := gs[..|gs| - 1], gs[|gs| - 1];
      assert gs == init + [last];
      LiveGoalsInTableOrder(init, user);
      var r0 := LiveGoalsOf(init, user);
      var pos0: seq<nat> :| InTablePositions(init, r0, pos0);
      PositionsSnoc(init, r0, pos0, last);
      if last.userId == user && Live(last) {
        assert InTablePositions(gs, LiveGoalsOf(gs, user), pos0 + [|init|]);
      } else {
        assert InTablePositions(gs, LiveGoalsOf(gs, user), pos0);
      }
    }
  }

  /**
    * The listing holds each of the user's live goals as often as the table
    * does, and nothing else: with `LiveGoalsInTableOrder`, it is the
    * table's order-preserving filter.
    */
  lemma {:induction false} LiveGoalsCounted(gs: seq<Goal>, user: Id, g: Goal)
    ensures multiset(LiveGoalsOf(gs, user))[g] == if g.userId == user && Live(g) then multiset(gs)[g] else 0
  {
    if gs != [] {
      var init, last := gs[..|gs| - 1], gs[|gs| - 1];
      assert gs == init + [last];
      LiveGoalsCounted(init, user, g);
    }
  }

  /** `getUserGoals`: the user's live goals, each with its status, progress and quota. */
  function ListGoals(gs: seq<Goal>, user: Id, now: Instant): (r: seq<GoalView>)
    ensures |r| == |LiveGoalsOf(gs, user)|
    ensures forall k :: 0 <= k < |r| ==> r[k] == View(LiveGoalsOf(gs, user)[k], now)
  {
    var live := LiveGoalsOf(gs, user);
    seq(|live|, (k: int) requires 0 <= k < |live| => View(live[k], now))
  }

  /** A deleted goal is never listed again. */
  lemma DeletedGoalNotListed(gs: seq<Goal>, i: nat, user: Id, now: Instant)
    requires i < |gs|
    ensures gs[i].(isDeleted := true) !in LiveGoalsOf(gs[i := gs[i].(isDeleted := true)], user)
  {
  }
}

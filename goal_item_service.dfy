/**
 * The goal operations of one user. `GoalBook` holds the user's goal list, as
 * the repository stores it, and the next id the repository will hand out; each
 * method changes that list step by step as the service does, and its
 * postcondition ties the new list to the reference definitions of GoalRules.
 * The catalog, the current time and the favorite test are inputs.
 */
module GoalItemService {
  import opened GoalTypes
  import opened GoalRules

  class GoalBook {
    var goals: seq<Goal>
    var nextId: nat

    /** Goal ids are distinct and every one was handed out before `nextId`. */
    ghost predicate Valid()
      reads this
    {
      IdsDistinct(goals) && IdsBelow(goals, nextId)
    }

    constructor Load(gs: seq<Goal>, next: nat)
      requires IdsDistinct(gs) && IdsBelow(gs, next)
      ensures Valid() && goals == gs && nextId == next
    {
      goals := gs;
      nextId := next;
    }

    /**
     * The active goal: the last goal that is not reached, or, when every goal
     * is reached or there are none, a new placeholder goal that is stored and
     * returned. Either way the result is not reached.
     */
    method GetGoalItem(catalog: Catalog) returns (g: Goal)
      requires Valid() && CatalogOk(catalog)
      modifies this
      ensures Valid()
      ensures !g.reached && g in goals
      ensures LastActive(old(goals)).Some? ==>
                goals == old(goals) && nextId == old(nextId) &&
                g == old(goals)[LastActive(old(goals)).value]
      ensures LastActive(old(goals)).None? ==>
                g == NoGoalItem(old(nextId), catalog) &&
                goals == old(goals) + [g] && nextId == old(nextId) + 1
      ensures ActiveCount(old(goals)) <= 1 ==> ActiveCount(goals) <= 1
    {
      var found: Option<nat> := None;
      var i := 0;
      while i < |goals|
        invariant 0 <= i <= |goals|
        invariant found == LastActive(goals[..i])
      {
        assert goals[..i + 1][..i] == goals[..i];
        if !goals[i].reached {
          found := Some(i);
        }
        i := i + 1;
      }
      assert goals[..i] == goals;
      if found.Some? {
        g := goals[found.value];
      } else {
        g := NoGoalItem(nextId, catalog);
        ActiveCountZeroIff(goals);
        ActiveCountAppend(goals, [g]);
        assert [g][..0] == [];
        goals := goals + [g];
        nextId := nextId + 1;
      }
    }

    /**
     * The history: for each reached goal, in list order, the goal, the sum of
     * its saved prices and its saved items newest first, each flagged with
     * `isFavorite(itemId, price)`.
     */
    method GetHistory(isFavorite: (int, int) -> bool) returns (entries: seq<HistoryEntry>)
      ensures entries == History(goals, isFavorite)
      ensures |entries| == |ReachedGoals(goals)|
      ensures forall k :: 0 <= k < |entries| ==> entries[k] == EntryOf(ReachedGoals(goals)[k], isFavorite)
      ensures forall k :: 0 <= k < |entries| ==> entries[k].goal.reached && entries[k].goal in goals
    {
      entries := [];
      var i := 0;
      while i < |goals|
        invariant 0 <= i <= |goals|
        invariant entries == History(goals[..i], isFavorite)
      {
        var g := goals[i];
        if g.reached {
          var views, totalPrice := ViewSaved(g.saved, isFavorite);
          entries := entries + [HistoryEntry(g, totalPrice, Reverse(views))];
        }
        assert goals[..i + 1][..i] == goals[..i];
        i := i + 1;
      }
      assert goals[..i] == goals;
      HistoryIsReachedInOrder(goals, isFavorite);
      ReachedGoalsExact(goals);
    }

    /**
     * The first half of creating a goal: goes through the goals in order,
     * removing each goal without saved items and marking every other one
     * reached at `now`, and stops at the first real goal that is not reached
     * (`blocked`), leaving the goals from there on as they were.
     */
    method ClearForNewGoal(now: int) returns (blocked: bool)
      requires Valid()
      modifies this
      ensures Valid() && nextId == old(nextId) && |goals| <= |old(goals)|
      ensures blocked <==> !NoneBlocks(old(goals))
      ensures blocked ==> SettledUntilBlocked(old(goals), goals, now)
      ensures !blocked ==> goals == Settle(old(goals), now) && ActiveCount(goals) == 0
      ensures ActiveCount(goals) <= ActiveCount(old(goals))
    {
      var before := goals;  // the list being iterated over
      var kept: seq<Goal> := [];  // the goals that stay, closed
      var i := 0;
      while i < |before|
        invariant 0 <= i <= |before|
        invariant forall j :: 0 <= j < i ==> !BlocksNewGoal(before[j])
        invariant kept == Settle(before[..i], now)
        invariant before == old(goals) && goals == old(goals) && nextId == old(nextId)
      {
        assert before[..i + 1][..i] == before[..i];
        var g := before[i];
        if BlocksNewGoal(g) {
          SettlePrefixKeepsIds(before, i, now, nextId);
          SettlePrefixActive(before, i, now);
          goals := kept + before[i..];
          assert goals == Settle(before[..i], now) + before[i..];
          return true;
        } else if g.saved != [] {
          kept := kept + [Close(g, now)];
        }
        i := i + 1;
      }
      assert before[..i] == before;
      SettleKeepsIds(before, now, nextId);
      SettleLeavesNoneActive(before, now);
      goals := kept;
      return false;
    }

    /**
     * Creates a goal. Going through the goals in order: a real goal that is
     * not reached stops the creation with ActiveGoalExists, leaving the goals
     * already gone through settled (removed or closed) and adding nothing; a
     * goal without saved items is removed; any other is marked reached at
     * `now`. Then the item is resolved (InvalidItem when the category and item
     * do not match) and a new goal, not reached, is appended with the
     * requested count and its target total.
     */
    method PostGoalItem(request: GoalRequest, catalog: Catalog, now: int) returns (r: Result<Goal>)
      requires Valid() && CatalogOk(catalog)
      modifies this
      ensures Valid()
      ensures r.Err? ==> nextId == old(nextId) && |goals| <= |old(goals)|
      ensures r.Err? ==> r.error == ActiveGoalExists || r.error == InvalidItem
      ensures r == Err(ActiveGoalExists) <==> !NoneBlocks(old(goals))
      ensures r == Err(ActiveGoalExists) ==> SettledUntilBlocked(old(goals), goals, now)
      ensures r == Err(InvalidItem) <==>
                NoneBlocks(old(goals)) && ResolveItem(catalog, request.categoryId, request.itemId).None?
      ensures r == Err(InvalidItem) ==> goals == Settle(old(goals), now)
      ensures r.Ok? ==>
                ResolveItem(catalog, request.categoryId, request.itemId).Some? &&
                var item := ResolveItem(catalog, request.categoryId, request.itemId).value;
                r.value == Goal(old(nextId), item, request.count,
                                TargetTotal(request.price, item.defaultPrice, request.count),
                                false, None, []) &&
                goals == Settle(old(goals), now) + [r.value] &&
                nextId == old(nextId) + 1
      ensures r.Ok? ==> r.value.item.id == request.itemId && r.value.item.categoryId == request.categoryId
      ensures r.Ok? ==> ActiveCount(goals) == 1
      ensures r.Err? ==> ActiveCount(goals) <= ActiveCount(old(goals))
    {
      var blocked := ClearForNewGoal(now);
      if blocked {
        return Err(ActiveGoalExists);
      }
      var resolved := ResolveItem(catalog, request.categoryId, request.itemId);
      if resolved.None? {
        return Err(InvalidItem);
      }
      var item := resolved.value;
      var total := TargetTotal(request.price, item.defaultPrice, request.count);
      var goal := Goal(nextId, item, request.count, total, false, None, []);
      AppendFresh(goals, goal, nextId);
      goals := goals + [goal];
      nextId := nextId + 1;
      r := Ok(goal);
    }

    /**
     * Edits the goal with id `goalId`. A request naming a real item retargets
     * the goal to that item and marks it reached at `now` when the saved sum
     * meets the new total; a request naming the placeholder item keeps the
     * goal's item and marks it reached at `now` when some running sum of the
     * saved prices, in stored order, meets the new total. Either way the count
     * and total are replaced and a reached goal stays reached.
     */
    method UpdateGoalItem(goalId: nat, request: GoalRequest, catalog: Catalog, now: int) returns (r: Outcome)
      requires Valid()
      modifies this
      ensures Valid() && nextId == old(nextId) && |goals| == |old(goals)|
      ensures r.Failure? ==> goals == old(goals)
      ensures r.Success? <==>
                IndexOf(old(goals), goalId).Some? &&
                (request.itemId != NoGoalItemId ==> ResolveItem(catalog, request.categoryId, request.itemId).Some?)
      ensures r == Failure(GoalNotFound) <==> IndexOf(old(goals), goalId).None?
      ensures r == Failure(InvalidItem) <==>
                IndexOf(old(goals), goalId).Some? && request.itemId != NoGoalItemId &&
                ResolveItem(catalog, request.categoryId, request.itemId).None?
      ensures r.Success? ==>
                IndexOf(old(goals), goalId).Some? &&
                var i := IndexOf(old(goals), goalId).value;
                var g, h := old(goals)[i], goals[i];
                |goals| == |old(goals)| && goals == old(goals)[i := h] &&
                h.id == g.id && h.saved == g.saved && h.count == request.count &&
                (g.reached ==> h.reached)
      ensures r.Success? && request.itemId != NoGoalItemId ==>
                IndexOf(old(goals), goalId).Some? &&
                ResolveItem(catalog, request.categoryId, request.itemId).Some? &&
                var i := IndexOf(old(goals), goalId).value;
                var g, h := old(goals)[i], goals[i];
                var item := ResolveItem(catalog, request.categoryId, request.itemId).value;
                var total := TargetTotal(request.price, item.defaultPrice, request.count);
                h.item == item && h.total == total &&
                (h.reached <==> g.reached || SavedTotal(g.saved) >= total) &&
                h.reachedAt == (if SavedTotal(g.saved) >= total then Some(now) else g.reachedAt)
      ensures r.Success? && request.itemId == NoGoalItemId ==>
                IndexOf(old(goals), goalId).Some? &&
                var i := IndexOf(old(goals), goalId).value;
                var g, h := old(goals)[i], goals[i];
                var total := TargetTotal(request.price, g.item.defaultPrice, request.count);
                var hit := ReplayReaches(g.saved, total);
                h.item == g.item && h.total == total &&
                (h.reached <==> g.reached || hit) &&
                h.reachedAt == (if hit then Some(now) else g.reachedAt)
      ensures ActiveCount(goals) <= ActiveCount(old(goals))
    {
      var found := IndexOf(goals, goalId);
      if found.None? {
        return Failure(GoalNotFound);
      }
      var i := found.value;
      var g := goals[i];
      if request.itemId != NoGoalItemId {
        var resolved := ResolveItem(catalog, request.categoryId, request.itemId);
        if resolved.None? {
          return Failure(InvalidItem);
        }
        var item := resolved.value;
        var total := TargetTotal(request.price, item.defaultPrice, request.count);
        var savedItemTotal := SumSaved(g.saved);
        if savedItemTotal >= total {
          goals := goals[i := Close(goals[i], now)];
        }
        goals := goals[i := goals[i].(count := request.count, total := total, item := item)];
      } else {
        var total := TargetTotal(request.price, g.item.defaultPrice, request.count);
        ReplayLedger(i, total, now);
        goals := goals[i := goals[i].(count := request.count, total := total)];
      }
      ActiveCountReplace(old(goals), i, goals[i]);
      ReplaceKeepsIds(old(goals), i, goals[i], nextId);
      r := Success;
    }

    /**
     * The replay of the ledger of goal `i` against `total`: the saved prices
     * are added up in stored order, and each time the running sum meets the
     * total the goal is marked reached at `now`.
     */
    method ReplayLedger(i: nat, total: int, now: int)
      requires i < |goals|
      modifies this
      ensures nextId == old(nextId)
      ensures goals == old(goals)[i := if ReplayReaches(old(goals)[i].saved, total)
                                      then Close(old(goals)[i], now) else old(goals)[i]]
    {
      var saved := goals[i].saved;
      ghost var g := goals[i];
      var savedItemTotal := 0;
      var j := 0;
      while j < |saved|
        invariant 0 <= j <= |saved|
        invariant savedItemTotal == SavedTotal(saved[..j])
        invariant goals == old(goals)[i := if ReplayReaches(saved[..j], total) then Close(g, now) else g]
        invariant nextId == old(nextId)
      {
        assert saved[..j + 1][..j] == saved[..j];
        savedItemTotal := savedItemTotal + saved[j].price;
        if savedItemTotal >= total {
          goals := goals[i := Close(goals[i], now)];
        }
        j := j + 1;
      }
      assert saved[..j] == saved;
    }

    /**
     * Deletes the goal with id `goalId`: its saved items move onto a new
     * placeholder goal, which is stored and at once marked reached at `now`;
     * the deleted goal is gone and every other goal is left as it was.
     */
    method DeleteGoalItem(goalId: nat, catalog: Catalog, now: int) returns (r: Outcome)
      requires Valid() && CatalogOk(catalog)
      modifies this
      ensures Valid()
      ensures r == Failure(GoalNotFound) <==> IndexOf(old(goals), goalId).None?
      ensures r.Failure? ==> goals == old(goals) && nextId == old(nextId)
      ensures r.Success? ==>
                IndexOf(old(goals), goalId).Some? &&
                var i := IndexOf(old(goals), goalId).value;
                goals == old(goals)[..i] + old(goals)[i + 1..] +
                         [Close(NoGoalItem(old(nextId), catalog), now).(saved := old(goals)[i].saved)] &&
                nextId == old(nextId) + 1
      ensures forall k :: 0 <= k < |goals| ==> goals[k].id != goalId
      ensures AllSaved(goals) == AllSaved(old(goals))
      ensures ActiveCount(goals) <= ActiveCount(old(goals))
    {
      var found := IndexOf(goals, goalId);
      if found.None? {
        return Failure(GoalNotFound);
      }
      var i := found.value;
      var savedItems := goals[i].saved;
      var noGoal := Reparent(savedItems, NoGoalItem(nextId, catalog));
      assert noGoal.saved == savedItems by {
        assert [] + savedItems == savedItems;
      }
      var closed := Close(noGoal, now);
      DeleteOutcome(goals, i, closed, nextId);
      var rest := goals[..i] + goals[i + 1..];
      goals := rest;
      goals := goals + [noGoal];
      nextId := nextId + 1;
      goals := goals[|goals| - 1 := closed];
      assert goals == rest + [closed];
      r := Success;
    }
  }

  /**
   * Moves the saved items, in order, onto the goal `onto`: each one now
   * belongs to it, after the items it already had.
   */
  method Reparent(items: seq<SavedItem>, onto: Goal) returns (g: Goal)
    ensures g == onto.(saved := onto.saved + items)
  {
    g := onto;
    var j := 0;
    while j < |items|
      invariant 0 <= j <= |items|
      invariant g == onto.(saved := onto.saved + items[..j])
    {
      assert items[..j + 1] == items[..j] + [items[j]];
      g := g.(saved := g.saved + [items[j]]);
      j := j + 1;
    }
    assert items[..j] == items;
  }

  /**
   * The saved items of one goal as the history lists them, in stored order,
   * each with its favorite flag, and the sum of their prices.
   */
  method ViewSaved(saved: seq<SavedItem>, isFavorite: (int, int) -> bool)
    returns (views: seq<SavedItemView>, totalPrice: int)
    ensures views == Annotate(saved, isFavorite) && totalPrice == SavedTotal(saved)
  {
    views := [];
    totalPrice := 0;
    var j := 0;
    while j < |saved|
      invariant 0 <= j <= |saved|
      invariant totalPrice == SavedTotal(saved[..j])
      invariant views == Annotate(saved[..j], isFavorite)
    {
      assert saved[..j + 1][..j] == saved[..j];
      var s := saved[j];
      views := views + [SavedItemView(s, isFavorite(s.itemId, s.price))];
      totalPrice := totalPrice + s.price;
      j := j + 1;
    }
    assert saved[..j] == saved;
  }

  /** Adds up the prices of the saved items, in stored order. */
  method SumSaved(saved: seq<SavedItem>) returns (total: int)
    ensures total == SavedTotal(saved)
  {
    total := 0;
    var j := 0;
    while j < |saved|
      invariant 0 <= j <= |saved|
      invariant total == SavedTotal(saved[..j])
    {
      assert saved[..j + 1][..j] == saved[..j];
      total := total + saved[j].price;
      j := j + 1;
    }
    assert saved[..j] == saved;
  }

  /** Replacing a goal by one with the same id keeps the ids distinct and below the bound. */
  lemma ReplaceKeepsIds(gs: seq<Goal>, i: nat, g: Goal, bound: nat)
    requires i < |gs| && g.id == gs[i].id
    requires IdsDistinct(gs) && IdsBelow(gs, bound)
    ensures IdsDistinct(gs[i := g]) && IdsBelow(gs[i := g], bound)
  {
  }

  /** Settling a prefix keeps the ids of the whole list distinct and below the bound. */
  lemma SettlePrefixKeepsIds(gs: seq<Goal>, k: nat, now: int, bound: nat)
    requires k <= |gs|
    requires IdsDistinct(gs) && IdsBelow(gs, bound)
    ensures IdsDistinct(Settle(gs[..k], now) + gs[k..]) && IdsBelow(Settle(gs[..k], now) + gs[k..], bound)
  {
    var p, t := gs[..k], gs[k..];
    assert IdsDistinct(p) && IdsBelow(p, bound);
    assert IdsDistinct(t) && IdsBelow(t, bound);
    SettleKeepsIds(p, now, bound);
    var s := Settle(p, now);
    forall x, y | 0 <= x < |s| && 0 <= y < |t|
      ensures s[x].id != t[y].id
    {
      SettleContents(p, now);
      assert s[x] in s;
      var j :| 0 <= j < |p| && p[j].saved != [] && s[x] == Close(p[j], now);
      assert p[j] == gs[j] && t[y] == gs[k + y];
    }
    ConcatKeepsIds(s, t, bound);
  }



  /**
   * Creating a goal that stops at a blocking goal leaves no more active goals
   * than there were.
   */
  lemma SettlePrefixActive(gs: seq<Goal>, k: nat, now: int)
    requires k <= |gs|
    ensures ActiveCount(Settle(gs[..k], now) + gs[k..]) <= ActiveCount(gs)
  {
    assert gs == gs[..k] + gs[k..];
    ActiveCountAppend(gs[..k], gs[k..]);
    ActiveCountAppend(Settle(gs[..k], now), gs[k..]);
    SettleLeavesNoneActive(gs[..k], now);
  }

  /**
   * What deleting goal `i` leaves: the other goals in their order, then the
   * reached placeholder `g` holding the deleted goal's saved items. The ids
   * stay distinct, the deleted id is gone, the saved sum is kept and no goal
   * becomes active.
   */
  lemma DeleteOutcome(gs: seq<Goal>, i: nat, g: Goal, bound: nat)
    requires i < |gs|
    requires IdsDistinct(gs) && IdsBelow(gs, bound)
    requires g.id == bound && g.saved == gs[i].saved && g.reached
    ensures var r := gs[..i] + gs[i + 1..] + [g];
            IdsDistinct(r) && IdsBelow(r, bound + 1) &&
            (forall k :: 0 <= k < |r| ==> r[k].id != gs[i].id) &&
            AllSaved(r) == AllSaved(gs) &&
            ActiveCount(r) <= ActiveCount(gs)
  {
    var rest := gs[..i] + gs[i + 1..];
    RemoveKeepsIds(gs, i, bound);
    DeleteKeepsAllSaved(gs, i, g);
    ActiveCountRemove(gs, i);
    ActiveCountAppend(rest, [g]);
    assert [g][..0] == [];
  }

  /** Removing a goal and appending one with a fresh id keeps the ids distinct. */
  lemma RemoveKeepsIds(gs: seq<Goal>, i: nat, bound: nat)
    requires i < |gs|
    requires IdsDistinct(gs) && IdsBelow(gs, bound)
    ensures IdsDistinct(gs[..i] + gs[i + 1..]) && IdsBelow(gs[..i] + gs[i + 1..], bound)
  {
    var r := gs[..i] + gs[i + 1..];
    assert forall a :: 0 <= a < |r| ==> r[a] == gs[if a < i then a else a + 1];
  }

  /**
   * Appending a goal with the next fresh id keeps the ids distinct, now below
   * the following id, and adds one active goal exactly when the goal is not reached.
   */
  lemma AppendFresh(gs: seq<Goal>, g: Goal, bound: nat)
    requires IdsDistinct(gs) && IdsBelow(gs, bound) && g.id == bound
    ensures IdsDistinct(gs + [g]) && IdsBelow(gs + [g], bound + 1)
    ensures ActiveCount(gs + [g]) == ActiveCount(gs) + (if g.reached then 0 else 1)
  {
    ActiveCountAppend(gs, [g]);
    assert [g][..0] == [];
  }
}

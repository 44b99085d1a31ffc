/**
 * Reference definitions of what the goal operations compute, over one user's
 * goal list as a sequence, and the lemmas that state what they mean. Every
 * sequence function is defined from the back (the value for `s` from the value
 * for `s` without its last element), which is the shape a front-to-back loop
 * that accumulates keeps as its invariant.
 */
module GoalRules {
  import opened GoalTypes

  // ---------------------------------------------------------------------
  // Saved-item ledger
  // ---------------------------------------------------------------------

  /** The sum of the prices of the saved items. */
  function SavedTotal(s: seq<SavedItem>): int
  {
    if s == [] then 0 else SavedTotal(s[..|s| - 1]) + s[|s| - 1].price
  }

  /**
   * True when, adding the prices one by one in stored order, the running sum
   * meets `total` after at least one item.
   */
  function ReplayReaches(s: seq<SavedItem>, total: int): bool
  {
    if s == [] then false else ReplayReaches(s[..|s| - 1], total) || SavedTotal(s) >= total
  }

  /** The replay reaches the total exactly when some non-empty prefix sums to at least it. */
  lemma {:induction false} ReplayReachesIff(s: seq<SavedItem>, total: int)
    ensures ReplayReaches(s, total) <==> exists j :: 1 <= j <= |s| && SavedTotal(s[..j]) >= total
  {
    if s != [] {
      var p := s[..|s| - 1];
      ReplayReachesIff(p, total);
      assert s[..|s|] == s;
      forall j | 1 <= j <= |p|
        ensures s[..j] == p[..j]
      {
      }
      if ReplayReaches(p, total) {
        var j :| 1 <= j <= |p| && SavedTotal(p[..j]) >= total;
        assert s[..j] == p[..j];
      }
      if exists j :: 1 <= j <= |s| && SavedTotal(s[..j]) >= total {
        var j :| 1 <= j <= |s| && SavedTotal(s[..j]) >= total;
        if j < |s| {
          assert s[..j] == p[..j];
        }
      }
    }
  }

  predicate NonNegativePrices(s: seq<SavedItem>)
  {
    forall k :: 0 <= k < |s| ==> s[k].price >= 0
  }

  /**
   * With non-negative prices the running sums never decrease, so the replay
   * reaches the total exactly when the ledger is non-empty and its full sum
   * does: the replay of one update branch and the single comparison of the
   * other disagree only on an empty ledger.
   */
  lemma {:induction false} ReplayAgreesWithFinalSum(s: seq<SavedItem>, total: int)
    requires NonNegativePrices(s)
    ensures ReplayReaches(s, total) <==> s != [] && SavedTotal(s) >= total
  {
    if s != [] {
      var p := s[..|s| - 1];
      assert NonNegativePrices(p);
      ReplayAgreesWithFinalSum(p, total);
      assert SavedTotal(s) == SavedTotal(p) + s[|s| - 1].price;
      if p == [] {
        assert !ReplayReaches(p, total);
      }
    }
  }

  // ---------------------------------------------------------------------
  // History view
  // ---------------------------------------------------------------------

  /** A saved item as the history shows it, with its favorite flag. */
  datatype SavedItemView = SavedItemView(item: SavedItem, favorite: bool)

  /** One history entry: a reached goal, its saved sum, its saved items newest first. */
  datatype HistoryEntry = HistoryEntry(goal: Goal, totalPrice: int, items: seq<SavedItemView>)

  /** The saved items annotated with the favorite flag, in stored order. */
  function Annotate(s: seq<SavedItem>, isFavorite: (int, int) -> bool): (r: seq<SavedItemView>)
    ensures |r| == |s|
    ensures forall k :: 0 <= k < |s| ==> r[k] == SavedItemView(s[k], isFavorite(s[k].itemId, s[k].price))
  {
    if s == [] then [] else
      Annotate(s[..|s| - 1], isFavorite) + [SavedItemView(s[|s| - 1], isFavorite(s[|s| - 1].itemId, s[|s| - 1].price))]
  }

  /** The elements of `s` in the opposite order. */
  function Reverse<T>(s: seq<T>): (r: seq<T>)
    ensures |r| == |s|
    ensures forall k :: 0 <= k < |s| ==> r[k] == s[|s| - 1 - k]
  {
    if s == [] then [] else [s[|s| - 1]] + Reverse(s[..|s| - 1])
  }

  function EntryOf(g: Goal, isFavorite: (int, int) -> bool): HistoryEntry
  {
    HistoryEntry(g, SavedTotal(g.saved), Reverse(Annotate(g.saved, isFavorite)))
  }

  /** The history: an entry for every reached goal, in list order. */
  function History(gs: seq<Goal>, isFavorite: (int, int) -> bool): seq<HistoryEntry>
  {
    if gs == [] then []
    else History(gs[..|gs| - 1], isFavorite) + (if gs[|gs| - 1].reached then [EntryOf(gs[|gs| - 1], isFavorite)] else [])
  }

  /** The reached goals, in list order: the independent reference for the history. */
  function ReachedGoals(gs: seq<Goal>): seq<Goal>
  {
    if gs == [] then []
    else ReachedGoals(gs[..|gs| - 1]) + (if gs[|gs| - 1].reached then [gs[|gs| - 1]] else [])
  }

  /** ReachedGoals keeps every reached goal and nothing else. */
  lemma {:induction false} ReachedGoalsExact(gs: seq<Goal>)
    ensures forall k :: 0 <= k < |ReachedGoals(gs)| ==> ReachedGoals(gs)[k].reached && ReachedGoals(gs)[k] in gs
    ensures forall k :: 0 <= k < |gs| && gs[k].reached ==> gs[k] in ReachedGoals(gs)
  {
    if gs != [] {
      var p := gs[..|gs| - 1];
      ReachedGoalsExact(p);
      assert forall k :: 0 <= k < |p| ==> p[k] == gs[k];
    }
  }

  /**
   * The history holds exactly one entry per reached goal, in list order (so,
   * with ReachedGoalsExact, never a goal that is not reached).
   */
  lemma {:induction false} HistoryIsReachedInOrder(gs: seq<Goal>, isFavorite: (int, int) -> bool)
    ensures |History(gs, isFavorite)| == |ReachedGoals(gs)|
    ensures forall k :: 0 <= k < |History(gs, isFavorite)| ==>
              History(gs, isFavorite)[k] == EntryOf(ReachedGoals(gs)[k], isFavorite)
  {
    if gs != [] {
      HistoryIsReachedInOrder(gs[..|gs| - 1], isFavorite);
    }
  }

  /**
   * A history entry shows its goal, the sum of the goal's saved prices and
   * the goal's saved items newest first, each with its favorite flag.
   */
  lemma EntryOfShowsLedger(g: Goal, isFavorite: (int, int) -> bool)
    ensures var e := EntryOf(g, isFavorite);
            e.goal == g && e.totalPrice == SavedTotal(g.saved) && |e.items| == |g.saved| &&
            forall m :: 0 <= m < |e.items| ==>
              var s := g.saved[|g.saved| - 1 - m];
              e.items[m] == SavedItemView(s, isFavorite(s.itemId, s.price))
  {
  }

  // ---------------------------------------------------------------------
  // The active goal
  // ---------------------------------------------------------------------

  /** The index of the last goal that is not reached, if any. */
  function LastActive(gs: seq<Goal>): (r: Option<nat>)
    ensures r.Some? ==> r.value < |gs| && !gs[r.value].reached &&
                        forall j :: r.value < j < |gs| ==> gs[j].reached
    ensures r.None? <==> forall j :: 0 <= j < |gs| ==> gs[j].reached
  {
    if gs == [] then None
    else if !gs[|gs| - 1].reached then Some(|gs| - 1)
    else
      var r := LastActive(gs[..|gs| - 1]);
      assert forall j :: 0 <= j < |gs| - 1 ==> gs[j] == gs[..|gs| - 1][j];
      r
  }

  /** The number of goals that are not reached. */
  function ActiveCount(gs: seq<Goal>): nat
  {
    if gs == [] then 0 else ActiveCount(gs[..|gs| - 1]) + (if gs[|gs| - 1].reached then 0 else 1)
  }

  lemma {:induction false} ActiveCountAppend(a: seq<Goal>, b: seq<Goal>)
    ensures ActiveCount(a + b) == ActiveCount(a) + ActiveCount(b)
  {
    if b == [] {
      assert a + b == a;
    } else {
      var b' := b[..|b| - 1];
      assert (a + b)[..|a + b| - 1] == a + b';
      ActiveCountAppend(a, b');
    }
  }

  /** No goal is active exactly when every goal is reached. */
  lemma {:induction false} ActiveCountZeroIff(gs: seq<Goal>)
    ensures ActiveCount(gs) == 0 <==> forall j :: 0 <= j < |gs| ==> gs[j].reached
  {
    if gs != [] {
      var p := gs[..|gs| - 1];
      ActiveCountZeroIff(p);
      assert forall j :: 0 <= j < |p| ==> p[j] == gs[j];
    }
  }

  /** Replacing a goal by one that is reached whenever the old one was adds no active goal. */
  lemma ActiveCountReplace(gs: seq<Goal>, i: nat, g: Goal)
    requires i < |gs|
    requires gs[i].reached ==> g.reached
    ensures ActiveCount(gs[i := g]) <= ActiveCount(gs)
  {
    var a, x, b := gs[..i], gs[i], gs[i + 1..];
    calc {
      ActiveCount(gs[i := g]);
    == { assert gs[i := g] == (a + [g]) + b; }
      ActiveCount((a + [g]) + b);
    == { ActiveCountAppend(a + [g], b); ActiveCountAppend(a, [g]); ActiveCountSingle(g); }
      ActiveCount(a) + ActiveCount([g]) + ActiveCount(b);
    <= { ActiveCountSingle(x); }
      ActiveCount(a) + ActiveCount([x]) + ActiveCount(b);
    == { ActiveCountAppend(a + [x], b); ActiveCountAppend(a, [x]); }
      ActiveCount((a + [x]) + b);
    == { assert gs == (a + [x]) + b; }
      ActiveCount(gs);
    }
  }

  /** Removing a goal adds no active goal. */
  lemma ActiveCountRemove(gs: seq<Goal>, i: nat)
    requires i < |gs|
    ensures ActiveCount(gs[..i] + gs[i + 1..]) <= ActiveCount(gs)
  {
    var a, x, b := gs[..i], gs[i], gs[i + 1..];
    calc {
      ActiveCount(a + b);
    == { ActiveCountAppend(a, b); }
      ActiveCount(a) + ActiveCount(b);
    <=
      ActiveCount(a) + ActiveCount([x]) + ActiveCount(b);
    == { ActiveCountAppend(a + [x], b); ActiveCountAppend(a, [x]); }
      ActiveCount((a + [x]) + b);
    == { assert gs == (a + [x]) + b; }
      ActiveCount(gs);
    }
  }

  lemma ActiveCountSingle(g: Goal)
    ensures ActiveCount([g]) == if g.reached then 0 else 1
  {
    assert [g][..0] == [];
  }

  // ---------------------------------------------------------------------
  // Clearing the way for a new goal
  // ---------------------------------------------------------------------

  /** The goal marked reached at `now`. */
  function Close(g: Goal, now: int): Goal
  {
    g.(reached := true, reachedAt := Some(now))
  }

  /**
   * What creating a goal does to the goals before it: every goal without saved
   * items is removed and every other one is marked reached at `now`.
   */
  function Settle(gs: seq<Goal>, now: int): (r: seq<Goal>)
    ensures |r| <= |gs|
  {
    if gs == [] then []
    else
      var last := gs[|gs| - 1];
      Settle(gs[..|gs| - 1], now) + (if last.saved == [] then [] else [Close(last, now)])
  }

  /**
   * The settled goals are exactly the goals that had saved items, each marked
   * reached at `now`: none is dropped that had saved items, none is added.
   */
  lemma {:induction false} SettleContents(gs: seq<Goal>, now: int)
    ensures forall g :: g in Settle(gs, now) ==> g.reached && g.reachedAt == Some(now) && g.saved != []
    ensures forall j :: 0 <= j < |gs| && gs[j].saved != [] ==> Close(gs[j], now) in Settle(gs, now)
    ensures forall g :: g in Settle(gs, now) ==>
              exists j :: 0 <= j < |gs| && gs[j].saved != [] && g == Close(gs[j], now)
  {
    if gs != [] {
      var p := gs[..|gs| - 1];
      SettleContents(p, now);
      assert forall j :: 0 <= j < |p| ==> p[j] == gs[j];
    }
  }

  /** After creating a goal none of the goals that were there before is active. */
  lemma {:induction false} SettleLeavesNoneActive(gs: seq<Goal>, now: int)
    ensures ActiveCount(Settle(gs, now)) == 0
  {
    var r := Settle(gs, now);
    SettleContents(gs, now);
    assert forall j :: 0 <= j < |r| ==> r[j] in r;
    ActiveCountZeroIff(r);
  }

  predicate IdsDistinct(gs: seq<Goal>)
  {
    forall i, j :: 0 <= i < j < |gs| ==> gs[i].id != gs[j].id
  }

  predicate IdsBelow(gs: seq<Goal>, bound: nat)
  {
    forall i :: 0 <= i < |gs| ==> gs[i].id < bound
  }

  /** Two lists with distinct ids and no id in common make one with distinct ids. */
  lemma ConcatKeepsIds(s: seq<Goal>, t: seq<Goal>, bound: nat)
    requires IdsDistinct(s) && IdsDistinct(t) && IdsBelow(s, bound) && IdsBelow(t, bound)
    requires forall x, y :: 0 <= x < |s| && 0 <= y < |t| ==> s[x].id != t[y].id
    ensures IdsDistinct(s + t) && IdsBelow(s + t, bound)
  {
    var u := s + t;
    forall x, y | 0 <= x < y < |u|
      ensures u[x].id != u[y].id
    {
      if y < |s| {
        assert u[x] == s[x] && u[y] == s[y];
      } else if x >= |s| {
        assert u[x] == t[x - |s|] && u[y] == t[y - |s|];
      } else {
        assert u[x] == s[x] && u[y] == t[y - |s|];
      }
    }
    forall x | 0 <= x < |u|
      ensures u[x].id < bound
    {
      if x < |s| {
        assert u[x] == s[x];
      } else {
        assert u[x] == t[x - |s|];
      }
    }
  }

  /**
   * `after` is `before` with settling stopped at the first goal that blocks a
   * new one: the goals ahead of it settled, it and the goals after it as they were.
   */
  ghost predicate SettledUntilBlocked(before: seq<Goal>, after: seq<Goal>, now: int)
  {
    exists k :: 0 <= k < |before| && BlocksNewGoal(before[k]) &&
                (forall j :: 0 <= j < k ==> !BlocksNewGoal(before[j])) &&
                after == Settle(before[..k], now) + before[k..]
  }

  /** Settling keeps only goals that were there, so the ids stay distinct and below any bound. */
  lemma {:induction false} SettleKeepsIds(gs: seq<Goal>, now: int, bound: nat)
    requires IdsDistinct(gs) && IdsBelow(gs, bound)
    ensures IdsDistinct(Settle(gs, now)) && IdsBelow(Settle(gs, now), bound)
  {
    if gs != [] {
      var p := gs[..|gs| - 1];
      var last := gs[|gs| - 1];
      assert IdsDistinct(p) && IdsBelow(p, bound);
      SettleKeepsIds(p, now, bound);
      var sp := Settle(p, now);
      SettleContents(p, now);
      if last.saved != [] {
        forall i | 0 <= i < |sp|
          ensures sp[i].id != last.id
        {
          assert sp[i] in sp;
          var j :| 0 <= j < |p| && p[j].saved != [] && sp[i] == Close(p[j], now);
          assert p[j] == gs[j];
        }
      }
    }
  }

  /** Whether any goal blocks the creation of a new one. */
  predicate NoneBlocks(gs: seq<Goal>)
  {
    forall j :: 0 <= j < |gs| ==> !BlocksNewGoal(gs[j])
  }

  // ---------------------------------------------------------------------
  // Looking a goal up and deleting it
  // ---------------------------------------------------------------------

  /** The position of the goal with the given id, if the user has one. */
  function IndexOf(gs: seq<Goal>, id: nat): (r: Option<nat>)
    ensures r.Some? ==> r.value < |gs| && gs[r.value].id == id
    ensures r.None? <==> forall j :: 0 <= j < |gs| ==> gs[j].id != id
  {
    if gs == [] then None
    else if gs[|gs| - 1].id == id then Some(|gs| - 1)
    else
      var r := IndexOf(gs[..|gs| - 1], id);
      assert forall j :: 0 <= j < |gs| - 1 ==> gs[j] == gs[..|gs| - 1][j];
      r
  }

  /** The sum of the saved prices over all the user's goals. */
  function AllSaved(gs: seq<Goal>): int
  {
    if gs == [] then 0 else AllSaved(gs[..|gs| - 1]) + SavedTotal(gs[|gs| - 1].saved)
  }

  lemma {:induction false} AllSavedAppend(a: seq<Goal>, b: seq<Goal>)
    ensures AllSaved(a + b) == AllSaved(a) + AllSaved(b)
  {
    if b == [] {
      assert a + b == a;
    } else {
      var b' := b[..|b| - 1];
      assert (a + b)[..|a + b| - 1] == a + b';
      AllSavedAppend(a, b');
    }
  }

  /**
   * Deleting goal `i` and moving its saved items onto a new goal keeps the
   * user's saved sum.
   */
  lemma DeleteKeepsAllSaved(gs: seq<Goal>, i: nat, g: Goal)
    requires i < |gs|
    requires g.saved == gs[i].saved
    ensures AllSaved(gs[..i] + gs[i + 1..] + [g]) == AllSaved(gs)
  {
    var a, x, b := gs[..i], gs[i], gs[i + 1..];
    calc {
      AllSaved(gs);
    == { assert gs == (a + [x]) + b; }
      AllSaved((a + [x]) + b);
    == { AllSavedAppend(a + [x], b); }
      AllSaved(a + [x]) + AllSaved(b);
    == { AllSavedAppend(a, [x]); AllSavedSingle(x); }
      AllSaved(a) + SavedTotal(x.saved) + AllSaved(b);
    == { AllSavedAppend(a, b); }
      AllSaved(a + b) + SavedTotal(g.saved);
    == { AllSavedAppend(a + b, [g]); AllSavedSingle(g); }
      AllSaved(a + b + [g]);
    }
  }

  lemma AllSavedSingle(g: Goal)
    ensures AllSaved([g]) == SavedTotal(g.saved)
  {
    assert [g][..0] == [];
  }


}

# Savings goals of one user (GoalItemService)

This project models the goal lifecycle of the savings service `GoalItemService`. A user owns a
list of goals. Each goal targets a catalog item, has a count and a target total, and carries a
`reached` flag with the time it was reached. Each goal also owns the saved items (each an item
and a price) the user put towards it. The item with id `-1` is a placeholder: a goal on it
means "no goal set".

The model has three modules:

- `GoalTypes` (`goal_types.dfy`) holds the entities, the catalog lookup, the target-total rule
  and the placeholder goal (`createNoGoalItem`).
- `GoalRules` (`goal_rules.dfy`) holds reference definitions over a goal list, with lemmas
  about them. These cover the running sum of a ledger, the history view, the active goal, the
  settling of old goals before a new one, lookup by id, and sums across goals.
- `GoalItemService` (`goal_item_service.dfy`) has the class `GoalBook`. It holds the user's goal
  list as the repository stores it, plus the next id the repository hands out. Its methods
  change that list step by step, with the same loops as the service:
  - `getGoalItem`
  - `getHistory`
  - `postGoalItem`
  - `updateGoalItem`, both branches
  - `deleteGoalItem`

  Each postcondition ties the new list to the reference definitions.

Every operation keeps the goal ids distinct and below the next id (`GoalBook.Valid`).
UpdateGoalItem and DeleteGoalItem never increase the number of goals that are not reached.
GetGoalItem and a successful PostGoalItem can add one, but leave at most one.

How the collaborators are represented:

- **Catalog.** `itemValidator.isValidCategoryAndItem` and `isValidItem(-1)` become lookups in
  a catalog map keyed by item id. The map holds the placeholder item (`CatalogOk`). A missing
  item, or one in another category, is the `InvalidItem` error.
- **Goal lookup.** `itemValidator.isValidGoalItem` becomes a lookup by id in the user's own
  list. No goal with that id is the `GoalNotFound` error.
- **Favorites.** `itemValidator.isFavoriteItem` is a given function of the saved item's id
  and price.
- **Clock.** `LocalDateTime.now()` is the parameter `now`.
- **Repository.** `save` of a new goal appends it to the list with the next id. `deleteById`
  removes it from the list.

## Model

| member | source | states |
|---|---|---|
| GoalTypes.NoGoalItem | src/main/java/com/hanghae0705/sbmoney/service/item/GoalItemService.java:187-190 | The placeholder goal is on the catalog's item -1, with count 0 and total 0. It is not reached, has no reached time and owns no saved items. It never blocks a new goal. |
| GoalTypes.TargetTotalPricing | src/main/java/com/hanghae0705/sbmoney/service/item/GoalItemService.java:97-99 | The target total is the requested price times the count, or the item's default price times the count when the requested price is 0. The default price matters only when the requested price is 0, and asking for 0 then costs the same as asking for the default price. A zero count costs nothing, and non-negative prices and counts give a non-negative total that does not shrink as the count grows. PostGoalItem and both UpdateGoalItem branches price with this one rule (lines 118-120 and 146-149 of the same file). |
| GoalRules.LastActive | src/main/java/com/hanghae0705/sbmoney/service/item/GoalItemService.java:39-45 | The chosen index is a goal that is not reached, and no later goal is not reached. There is no such index exactly when every goal is reached, including the empty list. |
| GoalItemService.GoalBook.GetGoalItem | src/main/java/com/hanghae0705/sbmoney/service/item/GoalItemService.java:36-52 | Returns the last goal that is not reached and leaves the list alone. If every goal is reached, or there are none, it appends exactly one placeholder goal with the next id and returns it. The result is never reached, and at most one active goal stays at most one. |
| GoalRules.ReachedGoalsExact | src/main/java/com/hanghae0705/sbmoney/service/item/GoalItemService.java:59-60 | Every goal kept by the history filter is reached and comes from the list. Every reached goal of the list is kept. |
| GoalRules.HistoryIsReachedInOrder | src/main/java/com/hanghae0705/sbmoney/service/item/GoalItemService.java:59-73 | The history has one entry per reached goal, in list order. Entry k is the entry built for the k-th reached goal. |
| GoalRules.EntryOfShowsLedger | src/main/java/com/hanghae0705/sbmoney/service/item/GoalItemService.java:61-72 | An entry shows its goal and the sum of that goal's saved prices. It lists the saved items in reverse stored order, each with its favorite flag. |
| GoalRules.Annotate | src/main/java/com/hanghae0705/sbmoney/service/item/GoalItemService.java:65-69 | Each saved item is paired, in place, with the favorite flag for its item and price. |
| GoalRules.Reverse | src/main/java/com/hanghae0705/sbmoney/service/item/GoalItemService.java:71 | The result has the same length, and element k is element n-1-k of the input. |
| GoalItemService.ViewSaved | src/main/java/com/hanghae0705/sbmoney/service/item/GoalItemService.java:63-70 | The loop yields the annotated saved items in stored order, and their price sum. |
| GoalItemService.GoalBook.GetHistory | src/main/java/com/hanghae0705/sbmoney/service/item/GoalItemService.java:56-76 | Returns exactly one entry per reached goal, in list order, each the entry of that goal. Every entry's goal is reached and is one of the user's goals. |
| GoalRules.SettleContents | src/main/java/com/hanghae0705/sbmoney/service/item/GoalItemService.java:82-91 | Settling marks reached at `now` every goal with saved items and removes the goals without any. Every settled goal is such a closed goal, reached at `now` and owning saved items. |
| GoalRules.SettleLeavesNoneActive | src/main/java/com/hanghae0705/sbmoney/service/item/GoalItemService.java:82-91 | After settling, no goal is left unreached. |
| GoalRules.SettleKeepsIds | src/main/java/com/hanghae0705/sbmoney/service/item/GoalItemService.java:85-90 | Settling only removes and closes goals, so distinct ids below a bound stay that way. |
| GoalItemService.GoalBook.ClearForNewGoal | src/main/java/com/hanghae0705/sbmoney/service/item/GoalItemService.java:80-92 | It is blocked exactly when some goal is real and not reached. In that case the goals before the first such goal are settled and the rest are unchanged. Otherwise the whole list is settled and no goal is active. The next id does not change. |
| GoalItemService.GoalBook.PostGoalItem | src/main/java/com/hanghae0705/sbmoney/service/item/GoalItemService.java:79-101 | Fails with ActiveGoalExists exactly when a real unreached goal exists. Fails with InvalidItem exactly when none exists and the item does not resolve. It fails with no other error, so it succeeds exactly when no goal blocks and the item resolves. On either error no goal is added. On success the old goals are settled and one new unreached goal is appended. The new goal has the next id, the requested item and category, the requested count, and the total `(price == 0 ? defaultPrice : price) * count`. It is then the only active goal. |
| GoalItemService.SumSaved | src/main/java/com/hanghae0705/sbmoney/service/item/GoalItemService.java:121-128 | The loop's running sum ends at the sum of the saved prices. |
| GoalRules.ReplayReachesIff | src/main/java/com/hanghae0705/sbmoney/service/item/GoalItemService.java:150-159 | The ledger replay reaches the total exactly when some non-empty prefix of the saved prices sums to at least the total. |
| GoalRules.ReplayAgreesWithFinalSum | src/main/java/com/hanghae0705/sbmoney/service/item/GoalItemService.java:126-141 | With non-negative prices, the replay test of the unchanged-item branch is the same as the final-sum test of the changed-item branch, except on an empty ledger. |
| GoalItemService.GoalBook.ReplayLedger | src/main/java/com/hanghae0705/sbmoney/service/item/GoalItemService.java:150-159 | The replay loop closes goal i at `now` exactly when some running sum of its saved prices meets the total. Otherwise it leaves the goal alone, and no other goal changes. |
| GoalItemService.GoalBook.UpdateGoalItem | src/main/java/com/hanghae0705/sbmoney/service/item/GoalItemService.java:110-170 | Fails with GoalNotFound when no goal has the id. Fails with InvalidItem when a real item is named and does not resolve. Either failure changes nothing, and it succeeds in every other case. On success only the goal with that id changes: its id and saved items are kept, its count is replaced, and a reached goal stays reached. Naming a real item sets that item and its total, and the goal becomes reached (at `now`) iff it was or its saved sum meets the total. Naming item -1 keeps the item and sets the total from its default price, and the goal becomes reached iff it was or some running sum meets the total. |
| GoalRules.ActiveCountReplace | src/main/java/com/hanghae0705/sbmoney/service/item/GoalItemService.java:138-142 | Replacing a goal with one that is reached whenever the old one was does not add an active goal. |
| GoalRules.IndexOf | src/main/java/com/hanghae0705/sbmoney/service/item/GoalItemService.java:111 | The lookup finds a goal with the id. It finds none exactly when no goal of the list has that id. |
| GoalItemService.Reparent | src/main/java/com/hanghae0705/sbmoney/service/item/GoalItemService.java:177-180 | After the re-parenting loop, the placeholder owns its own saved items followed by the moved ones, and is otherwise unchanged. |
| GoalRules.DeleteKeepsAllSaved | src/main/java/com/hanghae0705/sbmoney/service/item/GoalItemService.java:175-182 | Removing a goal and adding one that owns the same saved items keeps the sum of saved prices across all goals. |
| GoalRules.ActiveCountRemove | src/main/java/com/hanghae0705/sbmoney/service/item/GoalItemService.java:181 | Removing a goal does not add an active goal. |
| GoalItemService.DeleteOutcome | src/main/java/com/hanghae0705/sbmoney/service/item/GoalItemService.java:173-184 | Deleting goal i and appending a reached goal with a fresh id and the same saved items does four things. It keeps ids distinct and below the next bound, and the deleted id is gone. The total saved across goals is unchanged, and no active goal is added. |
| GoalItemService.GoalBook.DeleteGoalItem | src/main/java/com/hanghae0705/sbmoney/service/item/GoalItemService.java:173-186 | Fails with GoalNotFound, changing nothing, when no goal has the id. Otherwise it removes that goal and leaves the others untouched and in order. It appends a placeholder goal with the next id, reached at `now`, that owns exactly the deleted goal's saved items. No goal keeps the deleted id, and the sum of saved prices across goals is unchanged. |
| GoalRules.ActiveCountZeroIff | src/main/java/com/hanghae0705/sbmoney/service/item/GoalItemService.java:39-46 | There are no active goals exactly when every goal is reached. In that case getGoalItem creates the placeholder. |

## Left out

- **Images.** Uploading an image (`s3Uploader.upload` and the multipart file) is left out
  because it is external I/O. So is the difference between the create path's null check and
  the update path's `isEmpty` check.
- **Completion percentage.** The percentage (`MathFloor.PercentTenths` on a `double`,
  including the 100% that delete stores) is not modelled. It is floating point, its helper is
  not part of this model, and the division by a zero total is unguarded.
- **Integer width.** Java `int` overflow in `price * count` and in the running sums is not
  modelled. All integers are unbounded.
- **Transactions.** Rollback of `@Transactional` methods is not modelled. When postGoalItem
  fails, the model keeps the goals already deleted or closed before the conflicting goal.
  Whether the database keeps them depends on rollback rules that are not part of this model.
  `GoalItemService.GoalBook.PostGoalItem` states exactly that state.
- **Validators.** `ItemValidator`, `Favorite` and the repositories are not part of this model.
  They are reduced to the catalog map, lookup by id in the user's list and a given favorite
  function. `isValidCategoryAndItem` is assumed to fail exactly on a missing item or a
  category mismatch.
- **Responses.** Message texts and the `Response`/`HistoryResponse` objects are left out.
  `GetHistory` returns the data those objects carry, and `GetGoalItem` returns the goal.
- **Persistence.** ORM behaviour is left out: lazy collections, whether a deleted goal
  disappears from `user.getGoalItems()` in the same session, and the cascade behind
  re-parenting saved items. The list order is taken to be the order the repository returns.
- **Clock.** The clock is the parameter `now`. All timestamps of one call are the same value.
- `GoalItemService.GoalBook.GetGoalItem`: the invariant "at most one active goal" is stated as
  "not increased beyond one". It is not an exact count, because the service does not promise one.

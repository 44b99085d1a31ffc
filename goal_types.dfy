/**
 * The entities a user's savings goals are made of: catalog items, saved items,
 * goal records, the request that creates or edits a goal, and the errors the
 * goal operations report. Also the two rules every operation shares: how a
 * catalog item is resolved, and how a goal's target total is priced.
 */
module GoalTypes {

  datatype Option<T> = None | Some(value: T)

  /** The catalog id of the placeholder item: a goal on it means "no goal set". */
  const NoGoalItemId: int := -1

  /** A catalog entry: the category it belongs to and its default unit price. */
  datatype Item = Item(id: int, categoryId: int, defaultPrice: int)

  /** One contribution towards a goal: the item that was given up and its price. */
  datatype SavedItem = SavedItem(itemId: int, price: int)

  /**
   * A goal record. `reachedAt` is None until the goal is first marked reached;
   * `saved` lists the saved items the goal owns, in stored order.
   */
  datatype Goal = Goal(
    id: nat,
    item: Item,
    count: int,
    total: int,
    reached: bool,
    reachedAt: Option<int>,
    saved: seq<SavedItem>)

  /** What the user asks for when creating or editing a goal. */
  datatype GoalRequest = GoalRequest(categoryId: int, itemId: int, count: int, price: int)

  datatype Error =
    | ActiveGoalExists   // a real, not yet reached goal is already set
    | InvalidItem        // the category and item do not belong together
    | GoalNotFound       // no goal with that id among the user's goals

  datatype Result<T> = Ok(value: T) | Err(error: Error)

  datatype Outcome = Success | Failure(error: Error)

  /** The item catalog, keyed by item id. */
  type Catalog = map<int, Item>

  /** A catalog is well formed when it is keyed by item id and holds the placeholder item. */
  predicate CatalogOk(catalog: Catalog)
  {
    NoGoalItemId in catalog &&
    forall k :: k in catalog ==> catalog[k].id == k
  }

  /**
   * Resolves a category and item pair: the item exists and belongs to that
   * category, or there is no such item. In a well-formed catalog the item
   * found is the one asked for, in the category asked for.
   */
  function ResolveItem(catalog: Catalog, categoryId: int, itemId: int): (r: Option<Item>)
    ensures CatalogOk(catalog) && r.Some? ==> r.value.id == itemId && r.value.categoryId == categoryId
  {
    if itemId in catalog && catalog[itemId].categoryId == categoryId then Some(catalog[itemId]) else None
  }

  /**
   * The target total of a goal: the requested unit price times the count, where
   * a requested price of 0 stands for the item's default price.
   */
  function TargetTotal(price: int, defaultPrice: int, count: int): int
  {
    (if price == 0 then defaultPrice else price) * count
  }

  /**
   * What the pricing rule means: the item's default price matters only when
   * the requested price is 0, and then asking for 0 is the same as asking for
   * the default price; a zero count costs nothing, and non-negative prices and
   * counts give a non-negative total that grows with the count.
   */
  lemma TargetTotalPricing(price: int, defaultPrice: int, count: int)
    ensures price != 0 ==> forall d :: TargetTotal(price, d, count) == TargetTotal(price, defaultPrice, count)
    ensures defaultPrice != 0 ==> TargetTotal(0, defaultPrice, count) == TargetTotal(defaultPrice, price, count)
    ensures count == 0 ==> TargetTotal(price, defaultPrice, count) == 0
    ensures price >= 0 && defaultPrice >= 0 && count >= 0 ==>
              0 <= TargetTotal(price, defaultPrice, count) <= TargetTotal(price, defaultPrice, count + 1)
  {
  }

  /** A goal that stops a new goal from being created: not reached and not a placeholder. */
  predicate BlocksNewGoal(g: Goal)
  {
    !g.reached && g.item.id != NoGoalItemId
  }

  /**
   * A fresh placeholder goal: on the placeholder item, zero count and total,
   * not reached and owning no saved items. It never blocks a new goal, and a
   * new goal's creation removes it again unless saved items were moved onto it.
   */
  function NoGoalItem(id: nat, catalog: Catalog): (g: Goal)
    requires CatalogOk(catalog)
    ensures g.id == id && g.item.id == NoGoalItemId && g.item == catalog[NoGoalItemId]
    ensures g.count == 0 && g.total == 0
    ensures !g.reached && g.reachedAt == None && g.saved == []
    ensures !BlocksNewGoal(g)
  {
    Goal(id, catalog[NoGoalItemId], 0, 0, false, None, [])
  }
}

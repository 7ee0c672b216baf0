/**
 * The initial batch of food (src/food/setup.rs `init`): up to
 * `AMOUNT_OF_FOOD` cells popped from a copy of the pool that excludes the
 * head's start cell, then removed from the pool itself.
 */
module FoodSetup {
  import opened Cells
  import opened Pool
  import opened State

  /** `AMOUNT_OF_FOOD` of src/food.rs. */
  const AMOUNT_OF_FOOD: nat := 16

  /**
   * The body of the queued closure: clone the pool, drop the start cell, pop up
   * to `amount` cells spawning a food on each, then remove each popped cell
   * from the pool.
   */
  method PlaceInitialFood(w: World, amount: nat)
    modifies w`foods, w.pool
    ensures var placed := OpeningPicks(old(w.pool.positions), w.scale, amount);
            && w.foods == old(w.foods) + placed
            && w.pool.positions == Excluding(old(w.pool.positions), SetOf(placed))
  {
    var segmentPositions := [ToPosition(StartCell, w.scale)];
    assert SetOf(segmentPositions) == {ToPosition(StartCell, w.scale)};
    var candidates := new FreePositions.Clone(w.pool);
    candidates.RemoveAll(segmentPositions);
    var positions := PopUpTo(candidates, amount);
    w.foods := w.foods + positions;
    RemovePopped(w.pool, positions);
  }

  /**
   * `init`: does nothing when the `FreePositions` or the `TileSize` resource is
   * missing; otherwise places the initial food.
   */
  method Init(w: World, hasFreePositions: bool, hasTileSize: bool)
    modifies w`foods, w.pool
    ensures !(hasFreePositions && hasTileSize) ==>
      w.foods == old(w.foods) && w.pool.positions == old(w.pool.positions)
    ensures hasFreePositions && hasTileSize ==>
      var placed := OpeningPicks(old(w.pool.positions), w.scale, AMOUNT_OF_FOOD);
      && w.foods == old(w.foods) + placed
      && w.pool.positions == Excluding(old(w.pool.positions), SetOf(placed))
  {
    if !hasFreePositions {
      return;
    }
    if !hasTileSize {
      return;
    }
    PlaceInitialFood(w, AMOUNT_OF_FOOD);
  }
}

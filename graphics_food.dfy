/**
 * The food systems of the four-consumable pipeline (src/graphics/food.rs):
 * `init_food` on entering a round, and `spawn_food`, which answers only
 * regular spawn requests.
 */
module GraphicsFood {
  import opened Pool
  import opened Events
  import opened State
  import FoodSetup
  import FoodSpawn

  /**
   * `init_food`: does nothing when the `FreePositions` or the `TileSize`
   * resource is missing; otherwise it places up to the crate's `AMOUNT_OF_FOOD`
   * foods exactly as the older `init` does.
   */
  method InitFood(w: World, hasFreePositions: bool, hasTileSize: bool)
    modifies w`foods, w.pool
    ensures !(hasFreePositions && hasTileSize) ==>
      w.foods == old(w.foods) && w.pool.positions == old(w.pool.positions)
    ensures hasFreePositions && hasTileSize ==>
      var placed := OpeningPicks(old(w.pool.positions), w.scale, w.foodAmount);
      && w.foods == old(w.foods) + placed
      && w.pool.positions == Excluding(old(w.pool.positions), SetOf(placed))
  {
    if !hasFreePositions {
      return;
    }
    if !hasTileSize {
      return;
    }
    FoodSetup.PlaceInitialFood(w, w.foodAmount);
  }

  /** The request `spawn_food` acts on: the first pending one, when it is regular. */
  predicate WantsFood(events: seq<Event>) {
    FirstSpawn(events).Some? && FirstSpawn(events).value.regular
  }

  /**
   * `spawn_food`: only the first pending `SpawnConsumables` request is read,
   * and an irregular one is ignored. Otherwise one food goes to the last
   * candidate (the pool without the segments' coarse cells), if there is one,
   * and that cell leaves the pool.
   */
  method SpawnFood(w: World, events: seq<Event>)
    modifies w`foods, w.pool
    ensures !WantsFood(events) ==> w.foods == old(w.foods) && w.pool.positions == old(w.pool.positions)
    ensures WantsFood(events) ==>
      var cand := Candidates(old(w.pool.positions), w.segments, w.scale);
      && (cand == [] ==> w.foods == old(w.foods) && w.pool.positions == old(w.pool.positions))
      && (cand != [] ==>
            && w.foods == old(w.foods) + [cand[|cand| - 1]]
            && w.pool.positions == Excluding(old(w.pool.positions), {cand[|cand| - 1]}))
  {
    var first := FirstSpawn(events);
    if first.None? {
      return;
    }
    if !first.value.regular {
      return;
    }
    FoodSpawn.SpawnOne(w);
  }
}

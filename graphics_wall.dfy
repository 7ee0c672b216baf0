/**
 * The border walls of the four-consumable pipeline (src/graphics/wall.rs
 * `init_wall`): its loops run over `0..CONSUMABLE_WIDTH + 1` and
 * `1..CONSUMABLE_HEIGHT`, which are the ranges of the older `init`, so the
 * same cells are walled in the same order.
 */
module GraphicsWall {
  import opened Cells
  import opened Pool
  import opened State
  import opened WallSetup

  /**
   * `init_wall`: without a `TileSize` resource nothing happens. Otherwise the
   * top and bottom rows, then the two side columns, are walled, and the
   * `while let` loop removes every wall cell from the pool.
   */
  method InitWall(w: World, hasTileSize: bool)
    modifies w`walls, w.pool
    ensures !hasTileSize ==> w.walls == old(w.walls) && w.pool.positions == old(w.pool.positions)
    ensures hasTileSize ==>
      && w.walls == old(w.walls) + BorderCells()
      && w.pool.positions == Excluding(old(w.pool.positions), SetOf(BorderCells()))
  {
    if !hasTileSize {
      return;
    }
    var positions: seq<Position> := [];
    for x := 0 to CONSUMABLE_WIDTH + 1
      invariant positions == Rows(x)
      invariant w.walls == old(w.walls) + positions
      invariant w.pool.positions == old(w.pool.positions)
    {
      RowsStep(x);
      var pos := Position(x, 0);
      w.walls := w.walls + [pos];
      positions := positions + [pos];
      pos := Position(x, CONSUMABLE_HEIGHT);
      w.walls := w.walls + [pos];
      positions := positions + [pos];
    }
    for y := 1 to CONSUMABLE_HEIGHT
      invariant positions == Rows(CONSUMABLE_WIDTH + 1) + Sides(y - 1)
      invariant w.walls == old(w.walls) + positions
      invariant w.pool.positions == old(w.pool.positions)
    {
      SidesStep(y - 1);
      var pos := Position(0, y);
      w.walls := w.walls + [pos];
      positions := positions + [pos];
      pos := Position(CONSUMABLE_WIDTH, y);
      w.walls := w.walls + [pos];
      positions := positions + [pos];
    }
    assert positions == BorderCells();
    RemovePopped(w.pool, positions);
  }
}

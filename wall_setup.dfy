/**
 * The border walls (src/wall/setup.rs `init`): the border of
 * [0, CONSUMABLE_WIDTH] x [0, CONSUMABLE_HEIGHT], pushed row pair by row pair
 * and then side pair by side pair, each wall cell removed from the pool.
 */
module WallSetup {
  import opened Cells
  import opened Pool
  import opened State

  /** The cells of the first loop after `n` rounds: (x, 0) and then (x, CONSUMABLE_HEIGHT) for each x < n. */
  function Rows(n: nat): (r: seq<Position>)
    ensures |r| == 2 * n
  {
    seq(2 * n, i requires 0 <= i < 2 * n => Position(i / 2, if i % 2 == 0 then 0 else CONSUMABLE_HEIGHT))
  }

  /** The cells of the second loop for 1 <= y <= n: (0, y) and then (CONSUMABLE_WIDTH, y). */
  function Sides(n: nat): (r: seq<Position>)
    ensures |r| == 2 * n
  {
    seq(2 * n, i requires 0 <= i < 2 * n => Position(if i % 2 == 0 then 0 else CONSUMABLE_WIDTH, 1 + i / 2))
  }

  lemma RowsStep(n: nat)
    ensures Rows(n + 1) == Rows(n) + [Position(n, 0), Position(n, CONSUMABLE_HEIGHT)]
  {
    var r := Rows(n) + [Position(n, 0), Position(n, CONSUMABLE_HEIGHT)];
    forall i | 0 <= i < 2 * n + 2
      ensures Rows(n + 1)[i] == r[i]
    {
      if i >= 2 * n {
        assert i / 2 == n;
      }
    }
  }

  lemma SidesStep(n: nat)
    ensures Sides(n + 1) == Sides(n) + [Position(0, n + 1), Position(CONSUMABLE_WIDTH, n + 1)]
  {
    var r := Sides(n) + [Position(0, n + 1), Position(CONSUMABLE_WIDTH, n + 1)];
    forall i | 0 <= i < 2 * n + 2
      ensures Sides(n + 1)[i] == r[i]
    {
      if i >= 2 * n {
        assert i / 2 == n;
      }
    }
  }

  /** All wall cells in the order they are pushed. */
  function BorderCells(): seq<Position> {
    Rows(ARENA_WIDTH) + Sides(ARENA_HEIGHT - 2)
  }

  predicate OnBorder(p: Position) {
    || (0 <= p.x <= CONSUMABLE_WIDTH && (p.y == 0 || p.y == CONSUMABLE_HEIGHT))
    || (0 <= p.y <= CONSUMABLE_HEIGHT && (p.x == 0 || p.x == CONSUMABLE_WIDTH))
  }

  lemma RowsShape(n: nat, p: Position)
    ensures p in Rows(n) <==> 0 <= p.x < n && (p.y == 0 || p.y == CONSUMABLE_HEIGHT)
    ensures NoDup(Rows(n))
  {
    var r := Rows(n);
    if 0 <= p.x < n && (p.y == 0 || p.y == CONSUMABLE_HEIGHT) {
      var i := 2 * p.x + (if p.y == 0 then 0 else 1);
      assert i / 2 == p.x && i % 2 == (if p.y == 0 then 0 else 1);
      assert r[i] == p;
    }
    forall i, j | 0 <= i < j < |r|
      ensures r[i] != r[j]
    {
    }
  }

  lemma SidesShape(n: nat, p: Position)
    ensures p in Sides(n) <==> 1 <= p.y <= n && (p.x == 0 || p.x == CONSUMABLE_WIDTH)
    ensures NoDup(Sides(n))
  {
    var r := Sides(n);
    if 1 <= p.y <= n && (p.x == 0 || p.x == CONSUMABLE_WIDTH) {
      var i := 2 * (p.y - 1) + (if p.x == 0 then 0 else 1);
      assert i / 2 == p.y - 1 && i % 2 == (if p.x == 0 then 0 else 1);
      assert r[i] == p;
    }
    forall i, j | 0 <= i < j < |r|
      ensures r[i] != r[j]
    {
    }
  }

  /**
   * The wall cells are exactly the border cells, each once; corners come from
   * the row loop only, so there are 2 * ARENA_WIDTH + 2 * (ARENA_HEIGHT - 2) of them.
   */
  lemma BorderCellsExact(p: Position)
    ensures p in BorderCells() <==> OnBorder(p)
    ensures NoDup(BorderCells())
    ensures |BorderCells()| == 2 * ARENA_WIDTH + 2 * (ARENA_HEIGHT - 2)
  {
    var rows, sides := Rows(ARENA_WIDTH), Sides(ARENA_HEIGHT - 2);
    RowsShape(ARENA_WIDTH, p);
    SidesShape(ARENA_HEIGHT - 2, p);
    forall i, j | 0 <= i < |rows| && 0 <= j < |sides|
      ensures rows[i] != sides[j]
    {
      RowsShape(ARENA_WIDTH, rows[i]);
      SidesShape(ARENA_HEIGHT - 2, sides[j]);
    }
    NoDupConcat(rows, sides);
  }

  /**
   * The wall cells of the last column and the last row lie outside the 22 x 22
   * grid the pool is built over, so removing them from a pool of grid cells
   * removes nothing.
   */
  lemma OuterWallsOutsidePool(pool: seq<Position>, p: Position)
    requires forall q :: q in pool ==> InGrid(q, CONSUMABLE_WIDTH, CONSUMABLE_HEIGHT)
    requires p in BorderCells() && (p.x == CONSUMABLE_WIDTH || p.y == CONSUMABLE_HEIGHT)
    ensures !InGrid(p, CONSUMABLE_WIDTH, CONSUMABLE_HEIGHT)
    ensures Excluding(pool, {p}) == pool
  {
    ExcludingUntouched(pool, {p});
  }

  /**
   * `init`: without a `TileSize` resource nothing happens. Otherwise the two
   * loops spawn the walls over `BorderCells()` in order, and the `while let`
   * loop removes every wall cell from the pool.
   */
  method Init(w: World, hasTileSize: bool)
    modifies w`walls, w.pool
    ensures !hasTileSize ==> w.walls == old(w.walls) && w.pool.positions == old(w.pool.positions)
    ensures hasTileSize ==>
      && w.walls == old(w.walls) + BorderCells()
      && w.pool.positions == Excluding(old(w.pool.positions), SetOf(BorderCells()))
  {
    if !hasTileSize {
      return;
    }
    var positions: seq<Position> := [];
    for x := 0 to ARENA_WIDTH
      invariant positions == Rows(x)
      invariant w.walls == old(w.walls) + positions
      invariant w.pool.positions == old(w.pool.positions)
    {
      RowsStep(x);
      var pos := Position(x, 0);
      w.walls := w.walls + [pos];
      positions := positions + [pos];
      pos := Position(x, CONSUMABLE_HEIGHT);
      w.walls := w.walls + [pos];
      positions := positions + [pos];
    }
    for y := 1 to ARENA_HEIGHT - 1
      invariant positions == Rows(ARENA_WIDTH) + Sides(y - 1)
      invariant w.walls == old(w.walls) + positions
      invariant w.pool.positions == old(w.pool.positions)
    {
      SidesStep(y - 1);
      var pos := Position(0, y);
      w.walls := w.walls + [pos];
      positions := positions + [pos];
      pos := Position(CONSUMABLE_WIDTH, y);
      w.walls := w.walls + [pos];
      positions := positions + [pos];
    }
    assert positions == BorderCells();
    RemovePopped(w.pool, positions);
  }
}

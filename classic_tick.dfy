/**
 * The older food-only pipeline (src/lib.rs): on entering a round the setup
 * systems run, and every fixed tick runs movement, eat, spawn_food and growth;
 * game_over, an `Update` system in the source, is folded in at the end of the
 * tick, and its state change takes effect at once. `Valid` is the bookkeeping
 * this pipeline keeps: during a round the pool holds, once each, exactly the
 * grid cells that carry neither a food nor a wall, and every food stands on a
 * grid cell without a wall.
 */
module ClassicTick {
  import opened Wrappers
  import opened Cells
  import opened Pool
  import opened Events
  import opened Creature
  import opened State
  import Diplopod
  import FoodSpawn
  import FoodSetup
  import WallSetup
  import DiplopodSetup
  import Gameover

  predicate OnPoolGrid(c: Position) {
    InGrid(c, CONSUMABLE_WIDTH, CONSUMABLE_HEIGHT)
  }

  /**
   * Pool, foods and walls partition the grid: every food is on a grid cell
   * without a wall, and a grid cell is free exactly when no food or wall
   * stands on it. (Walls outside the grid, on the last row and column, are
   * allowed.)
   */
  ghost predicate Partition(pool: seq<Position>, foods: seq<Position>, walls: seq<Position>) {
    && NoDup(pool) && NoDup(foods)
    && (forall c :: c in foods ==> OnPoolGrid(c) && c !in walls)
    && (forall c {:trigger c in pool} :: c in pool <==> OnPoolGrid(c) && c !in foods && c !in walls)
  }

  ghost predicate Valid(w: World)
    reads w, w.pool
  {
    && w.pool.width == CONSUMABLE_WIDTH && w.pool.height == CONSUMABLE_HEIGHT
    && (w.state != Game ==> CoversGrid(w.pool.positions, w.pool.width, w.pool.height))
    && (w.state == Game ==>
          && w.head.Some? && |w.segments| >= 1
          && Partition(w.pool.positions, w.foods, w.walls))
  }

  /** The setup of a round over a full pool, walls first and then food, yields the partition. */
  lemma SetupPartition(pool0: seq<Position>, scale: Positive)
    requires CoversGrid(pool0, CONSUMABLE_WIDTH, CONSUMABLE_HEIGHT)
    ensures var walls := WallSetup.BorderCells();
            var free := Excluding(pool0, SetOf(walls));
            var foods := OpeningPicks(free, scale, FoodSetup.AMOUNT_OF_FOOD);
            Partition(Excluding(free, SetOf(foods)), foods, walls)
  {
    var walls := WallSetup.BorderCells();
    var pool1 := Excluding(pool0, SetOf(walls));
    var foods := OpeningPicks(pool1, scale, FoodSetup.AMOUNT_OF_FOOD);
    var pool2 := Excluding(pool1, SetOf(foods));
    ExcludingNoDup(pool0, SetOf(walls));
    OpeningPicksProperties(pool1, scale, FoodSetup.AMOUNT_OF_FOOD);
    ExcludingNoDup(pool1, SetOf(foods));
    forall c | c in foods
      ensures OnPoolGrid(c) && c !in walls
    {
      ExcludingMembership(pool0, SetOf(walls), c);
    }
    forall c
      ensures c in pool2 <==> OnPoolGrid(c) && c !in foods && c !in walls
    {
      ExcludingMembership(pool0, SetOf(walls), c);
      ExcludingMembership(pool1, SetOf(foods), c);
    }
  }

  /**
   * The other order, food before walls (the two OnEnter systems are not
   * ordered against each other): when the pool's last cell is the border cell
   * (0, 5), the first opening food lands there, a wall is then built on the
   * same cell, and the round starts outside `Partition`.
   */
  lemma FoodFirstSetupOverlap(pool0: seq<Position>, scale: Positive)
    requires pool0 != [] && pool0[|pool0| - 1] == Position(0, 5)
    ensures var foods := OpeningPicks(pool0, scale, FoodSetup.AMOUNT_OF_FOOD);
            var walls := WallSetup.BorderCells();
            && Position(0, 5) in foods && Position(0, 5) in walls
            && !Partition(Excluding(Excluding(pool0, SetOf(foods)), SetOf(walls)), foods, walls)
  {
    var start := ToPosition(StartCell, scale);
    assert start.x == start.y;
    var n := |pool0| - 1;
    assert pool0 == pool0[..n] + [pool0[n]];
    ExcludingSnoc(pool0[..n], pool0[n], {start});
    var cand := Excluding(pool0, {start});
    assert cand[|cand| - 1] == Position(0, 5);
    var foods := OpeningPicks(pool0, scale, FoodSetup.AMOUNT_OF_FOOD);
    assert foods[0] == Position(0, 5);
    WallSetup.BorderCellsExact(Position(0, 5));
  }

  /**
   * Eating keeps the partition when the head's cell `c` carries no wall: the
   * (at most one) food on `c` goes and `c` returns to the pool.
   */
  lemma EatKeepsPartition(pool0: seq<Position>, foods0: seq<Position>, walls: seq<Position>,
                          c: Position, pool1: seq<Position>)
    requires Partition(pool0, foods0, walls)
    requires c !in walls
    requires multiset(pool1) == multiset(pool0) + multiset(Copies(c, multiset(foods0)[c]))
    ensures Partition(pool1, Excluding(foods0, {c}), walls)
  {
    var k := multiset(foods0)[c];
    var foods1 := Excluding(foods0, {c});
    NoDupCount(foods0, c);
    ExcludingNoDup(foods0, {c});
    if k == 1 {
      assert c !in pool0;
      NoDupCount(pool0, c);
      assert multiset(Copies(c, 1)) == multiset{c} by {
        assert Copies(c, 1) == [c];
      }
    } else {
      assert Copies(c, k) == [];
    }
    forall q
      ensures multiset(pool1)[q] <= 1
      ensures q in pool1 <==> q in pool0 || (q == c && k == 1)
    {
      NoDupCount(pool0, q);
      assert q in pool1 <==> multiset(pool1)[q] > 0;
    }
    NoDupFromCounts(pool1);
    forall q
      ensures q in foods1 <==> q in foods0 && q != c
    {
      ExcludingMembership(foods0, {c}, q);
    }
  }

  /** Spawning a food on a pool cell `p` keeps the partition. */
  lemma SpawnKeepsPartition(pool1: seq<Position>, foods1: seq<Position>, walls: seq<Position>, p: Position)
    requires Partition(pool1, foods1, walls)
    requires p in pool1
    ensures Partition(Excluding(pool1, {p}), foods1 + [p], walls)
  {
    ExcludingNoDup(pool1, {p});
    NoDupSnoc(foods1, p);
    forall q
      ensures q in Excluding(pool1, {p}) <==> q in pool1 && q != p
    {
      ExcludingMembership(pool1, {p}, q);
    }
  }

  /**
   * The OnEnter systems of a round after the despawn, with every resource
   * present: the walls, then the initial food, then the head. Building the
   * walls first keeps the opening food off the border.
   */
  method SetupRound(w: World)
    modifies w`head, w`segments, w`foods, w`poisons, w`superfoods, w`antidotes, w`walls, w.pool
    ensures w.segments == [StartCell] && w.head == Some(Zero)
    ensures w.walls == WallSetup.BorderCells()
    ensures w.foods == OpeningPicks(Excluding(old(w.pool.positions), SetOf(w.walls)), w.scale, FoodSetup.AMOUNT_OF_FOOD)
    ensures w.pool.positions == Excluding(Excluding(old(w.pool.positions), SetOf(w.walls)), SetOf(w.foods))
  {
    DespawnScreen(w);
    WallSetup.Init(w, true);
    FoodSetup.Init(w, true, true);
    DiplopodSetup.Init(w);
  }

  /** Entering `Game`: the entities of the previous round are despawned and the round is set up. */
  method EnterGame(w: World)
    requires Valid(w) && w.state != Game
    modifies w, w.pool
    ensures Valid(w) && w.state == Game
    ensures w.segments == [StartCell] && w.head == Some(Zero)
    ensures w.walls == WallSetup.BorderCells()
    ensures w.foods == OpeningPicks(Excluding(old(w.pool.positions), SetOf(w.walls)), w.scale, FoodSetup.AMOUNT_OF_FOOD)
  {
    ghost var pool0 := w.pool.positions;
    SetupRound(w);
    w.state := Game;
    SetupPartition(pool0, w.scale);
  }

  /**
   * One round step at value level: the head's cell `c` carries no wall, eating
   * returns the food on `c` to the pool, and `spawn_food` (when asked and when
   * a candidate exists) moves the last candidate from the pool to the foods.
   * The partition survives the step.
   */
  lemma StepKeepsPartition(pool0: seq<Position>, foods0: seq<Position>, walls: seq<Position>, c: Position,
                           pool1: seq<Position>, foods1: seq<Position>, segs: seq<DiplopodPosition>,
                           scale: Positive, spawn: bool, pool2: seq<Position>, foods2: seq<Position>)
    requires Partition(pool0, foods0, walls) && c !in walls
    requires foods1 == Excluding(foods0, {c})
    requires multiset(pool1) == multiset(pool0) + multiset(Copies(c, multiset(foods0)[c]))
    requires !spawn ==> foods2 == foods1 && pool2 == pool1
    requires spawn ==>
      var cand := Candidates(pool1, segs, scale);
      && (cand == [] ==> foods2 == foods1 && pool2 == pool1)
      && (cand != [] ==> foods2 == foods1 + [cand[|cand| - 1]] && pool2 == Excluding(pool1, {cand[|cand| - 1]}))
    ensures Partition(pool2, foods2, walls)
  {
    EatKeepsPartition(pool0, foods0, walls, c, pool1);
    var cand := Candidates(pool1, segs, scale);
    if spawn && cand != [] {
      FoodSpawn.SpawnedFoodIsFree(pool1, segs, scale);
      SpawnKeepsPartition(pool1, foods1, walls, cand[|cand| - 1]);
    }
  }

  /** A tick without `GameOver` events saw no wall under the head. */
  lemma NoGameOverNoWall(moved: seq<Event>, k: nat, walls: seq<Position>, c: Position)
    ensures !HasGameOver(moved + (Diplopod.FoodHitEvents(k) + Repeat([GameOver], multiset(walls)[c]))) ==> c !in walls
  {
    if c in walls && !HasGameOver(moved + (Diplopod.FoodHitEvents(k) + Repeat([GameOver], multiset(walls)[c]))) {
      RepeatMembership([GameOver], multiset(walls)[c], GameOver);
      assert false;
    }
  }

  /**
   * `movement` then `eat`: the body follows the head, the food under the new
   * head cell `c` goes back to the pool, and a tick without `GameOver` saw no
   * wall on `c`.
   */
  method MoveAndEat(w: World) returns (events: seq<Event>, ghost c: Position)
    requires w.head.Some? && |w.segments| >= 1
    modifies w`segments, w`lastTail, w`foods, w.pool
    ensures w.segments == Follow(old(w.segments), w.head.value) && w.lastTail.Some?
    ensures c == ToPosition(w.segments[0], w.scale)
    ensures w.foods == Excluding(old(w.foods), {c})
    ensures multiset(w.pool.positions) == multiset(old(w.pool.positions)) + multiset(Copies(c, multiset(old(w.foods))[c]))
    ensures !HasGameOver(events) ==> c !in w.walls
  {
    var moved := Diplopod.Movement(w);
    c := w.HeadCell();
    ghost var k := multiset(old(w.foods))[c];
    var eaten := Diplopod.Eat(w);
    events := moved + eaten;
    NoGameOverNoWall(moved, k, w.walls, c);
  }

  /**
   * `spawn_food` then `growth`: when asked and when a candidate exists, the
   * last candidate moves from the pool to the foods; the body only grows.
   */
  method SpawnAndGrow(w: World, events: seq<Event>)
    requires |w.segments| >= 1 && w.lastTail.Some?
    modifies w`segments, w`foods, w.pool
    ensures !HasSpawnFood(events) ==> w.foods == old(w.foods) && w.pool.positions == old(w.pool.positions)
    ensures HasSpawnFood(events) && Candidates(old(w.pool.positions), old(w.segments), w.scale) == [] ==>
      w.foods == old(w.foods) && w.pool.positions == old(w.pool.positions)
    ensures HasSpawnFood(events) && Candidates(old(w.pool.positions), old(w.segments), w.scale) != [] ==>
      var cand := Candidates(old(w.pool.positions), old(w.segments), w.scale);
      w.foods == old(w.foods) + [cand[|cand| - 1]] && w.pool.positions == Excluding(old(w.pool.positions), {cand[|cand| - 1]})
    ensures |w.segments| >= 1
  {
    FoodSpawn.SpawnFood(w, events);
    Diplopod.Growth(w, events);
  }

  /**
   * The stages of a tick before `game_over`: movement, eat, spawn_food and
   * growth. `segs1` are the cells after the move, `c` is the head's cell and
   * `pool1` the pool after eating.
   */
  method RoundStep(w: World) returns (events: seq<Event>, ghost segs1: seq<DiplopodPosition>, ghost c: Position,
                                      ghost pool1: seq<Position>)
    requires w.head.Some? && |w.segments| >= 1
    modifies w`segments, w`lastTail, w`foods, w.pool
    ensures segs1 == Follow(old(w.segments), w.head.value) && c == ToPosition(segs1[0], w.scale)
    ensures multiset(pool1) == multiset(old(w.pool.positions)) + multiset(Copies(c, multiset(old(w.foods))[c]))
    ensures !HasGameOver(events) ==> c !in w.walls
    ensures !HasSpawnFood(events) ==> w.foods == Excluding(old(w.foods), {c}) && w.pool.positions == pool1
    ensures HasSpawnFood(events) && Candidates(pool1, segs1, w.scale) == [] ==>
      w.foods == Excluding(old(w.foods), {c}) && w.pool.positions == pool1
    ensures HasSpawnFood(events) && Candidates(pool1, segs1, w.scale) != [] ==>
      var cand := Candidates(pool1, segs1, w.scale);
      w.foods == Excluding(old(w.foods), {c}) + [cand[|cand| - 1]]
    ensures HasSpawnFood(events) && Candidates(pool1, segs1, w.scale) != [] ==>
      var cand := Candidates(pool1, segs1, w.scale);
      w.pool.positions == Excluding(pool1, {cand[|cand| - 1]})
    ensures |w.segments| >= 1
  {
    events, c := MoveAndEat(w);
    segs1, pool1 := w.segments, w.pool.positions;
    SpawnAndGrow(w, events);
  }

  /**
   * One fixed tick of a round. The round ends (next state `Highscore`) exactly
   * when some stage sent `GameOver`; otherwise the partition still holds.
   */
  method Tick(w: World) returns (events: seq<Event>)
    requires Valid(w) && w.state == Game
    modifies w, w.pool
    ensures Valid(w)
    ensures w.state == if HasGameOver(events) then Highscore else Game
  {
    ghost var pool0, foods0, segs0 := w.pool.positions, w.foods, w.segments;
    ghost var segs1, c, pool1;
    events, segs1, c, pool1 := RoundStep(w);
    if !HasGameOver(events) {
      StepKeepsPartition(pool0, foods0, w.walls, c, pool1, Excluding(foods0, {c}), segs1,
                         w.scale, HasSpawnFood(events), w.pool.positions, w.foods);
    }
    Gameover.GameOver(w, events);
  }
}

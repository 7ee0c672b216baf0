/**
 * The game world as one record: the entities the systems query (segments and
 * the head, the consumables, the walls) and the resources they update in
 * place (src/resources.rs). Each Bevy system of the two tick pipelines is a
 * method over this record whose `modifies` clause names the fields that system
 * writes.
 */
module State {
  import opened Wrappers
  import opened Cells
  import opened Pool

  /** The `ImmunityTime` counter is a `u8`. */
  type U8 = n: int | 0 <= n < 256

  class World {
    /** The cells of the entities listed in `DiplopodSegments`, head first. */
    var segments: seq<DiplopodPosition>
    /** The `DiplopodHead` component of the first segment, or `None` when no head entity exists. */
    var head: Option<Direction>
    /** `LastTailPosition`. */
    var lastTail: Option<DiplopodPosition>
    /** The cells of the `Food`, `Poison`, `SuperFood`, `AntiDote` and `Wall` entities, in spawn order. */
    var foods: seq<Position>
    var poisons: seq<Position>
    var superfoods: seq<Position>
    var antidotes: seq<Position>
    var walls: seq<Position>
    /** `LastSpecialSpawn` (a `u32`), `ImmunityTime`, `Highscore` and `Lastscore` (both `u16`). */
    var lastSpecialSpawn: nat
    var immunity: U8
    var highscore: nat
    var lastscore: nat
    /** The state the next state transition enters (`NextState<GameState>`). */
    var state: GameState
    /** The `FreePositions` resource. */
    const pool: FreePositions
    /** `CONSUMABLE_SCALE_FACTOR`, `SPECIAL_SPAWN_INTERVAL`, `AMOUNT_OF_POISON` and the crate-level `AMOUNT_OF_FOOD`. */
    const scale: Positive
    const specialInterval: Positive
    const poisonAmount: Positive
    const foodAmount: Positive

    /** A world over the given pool with default counters and state and no entities. */
    constructor (pool: FreePositions, scale: Positive, specialInterval: Positive, poisonAmount: Positive, foodAmount: Positive)
      ensures this.pool == pool
      ensures segments == [] && head == None && lastTail == None
      ensures foods == [] && poisons == [] && superfoods == [] && antidotes == [] && walls == []
      ensures lastSpecialSpawn == 0 && immunity == 0 && highscore == 0 && lastscore == 0
      ensures state == DefaultGameState
      ensures this.scale == scale && this.specialInterval == specialInterval
      ensures this.poisonAmount == poisonAmount && this.foodAmount == foodAmount
    {
      this.pool := pool;
      this.scale, this.specialInterval := scale, specialInterval;
      this.poisonAmount, this.foodAmount := poisonAmount, foodAmount;
      segments, head, lastTail := [], None, None;
      foods, poisons, superfoods, antidotes, walls := [], [], [], [], [];
      lastSpecialSpawn, immunity, highscore, lastscore := 0, 0, 0, 0;
      state := DefaultGameState;
    }

    /** The coarse cell of the head: the first segment projected. */
    function HeadCell(): Position
      reads this`segments
      requires |segments| >= 1
    {
      ToPosition(segments[0], scale)
    }
  }

  /**
   * The spawn candidates: a clone of the pool with `remove_all` applied to the
   * coarse projections of the given fine cells.
   */
  function Candidates(pool: seq<Position>, segs: seq<DiplopodPosition>, scale: Positive): seq<Position> {
    Excluding(pool, SetOf(Project(segs, scale)))
  }

  /** A candidate is a pool cell that no segment projects onto, and every such pool cell is a candidate. */
  lemma CandidatesAvoidSegments(pool: seq<Position>, segs: seq<DiplopodPosition>, scale: Positive, q: Position)
    ensures q in Candidates(pool, segs, scale) <==>
              q in pool && forall i :: 0 <= i < |segs| ==> ToPosition(segs[i], scale) != q
  {
    ExcludingMembership(pool, SetOf(Project(segs, scale)), q);
    var proj := Project(segs, scale);
    if q in proj {
      var i :| 0 <= i < |proj| && proj[i] == q;
      assert ToPosition(segs[i], scale) == q;
    }
  }

  /**
   * The cells an opening spawn takes (the initial food, the initial poison): up
   * to `amount` cells popped, in pop order, from a copy of the pool without the
   * head's start cell.
   */
  function OpeningPicks(pool: seq<Position>, scale: Positive, amount: nat): seq<Position> {
    PopOrder(Excluding(pool, {ToPosition(StartCell, scale)}), amount)
  }

  /**
   * The opening picks fill `min(amount, |candidates|)` cells, all taken from the
   * pool, none on the head's start cell, and pairwise distinct when the pool is.
   */
  lemma OpeningPicksProperties(pool: seq<Position>, scale: Positive, amount: nat)
    ensures var cand := Excluding(pool, {ToPosition(StartCell, scale)});
            |OpeningPicks(pool, scale, amount)| == Min(amount, |cand|)
    ensures forall q :: q in OpeningPicks(pool, scale, amount) ==> q in pool && q != ToPosition(StartCell, scale)
    ensures NoDup(pool) ==> NoDup(OpeningPicks(pool, scale, amount))
  {
    var start := ToPosition(StartCell, scale);
    var cand := Excluding(pool, {start});
    forall q | q in OpeningPicks(pool, scale, amount)
      ensures q in pool && q != start
    {
      var r := OpeningPicks(pool, scale, amount);
      var i :| 0 <= i < |r| && r[i] == q;
      assert q == cand[|cand| - 1 - i];
      ExcludingMembership(pool, {start}, q);
    }
    if NoDup(pool) {
      ExcludingNoDup(pool, {start});
      PopOrderDistinct(cand, amount);
    }
  }

  /**
   * The resources the app inserts before the first frame: the pool
   * `FreePositions::new(CONSUMABLE_WIDTH, CONSUMABLE_HEIGHT)`, default counters,
   * the default state, and no entities yet.
   */
  method NewWorld(scale: Positive, specialInterval: Positive, poisonAmount: Positive, foodAmount: Positive)
    returns (w: World)
    ensures fresh(w) && fresh(w.pool)
    ensures w.pool.width == CONSUMABLE_WIDTH && w.pool.height == CONSUMABLE_HEIGHT
    ensures multiset(w.pool.positions) == multiset(Grid(w.pool.width, w.pool.height))
    ensures w.segments == [] && w.head == None && w.lastTail == None
    ensures w.foods == [] && w.poisons == [] && w.superfoods == [] && w.antidotes == [] && w.walls == []
    ensures w.lastSpecialSpawn == 0 && w.immunity == 0 && w.highscore == 0 && w.lastscore == 0
    ensures w.state == DefaultGameState
    ensures w.scale == scale && w.specialInterval == specialInterval
    ensures w.poisonAmount == poisonAmount && w.foodAmount == foodAmount
  {
    var pool := new FreePositions(CONSUMABLE_WIDTH, CONSUMABLE_HEIGHT);
    w := new World(pool, scale, specialInterval, poisonAmount, foodAmount);
  }

  /** One more entity on `c` pushed back: one more copy of `c` in the pool. */
  method PushCopy(pool: FreePositions, c: Position, ghost base: multiset<Position>, ghost k: nat)
    requires multiset(pool.positions) == base + multiset(Copies(c, k))
    modifies pool
    ensures multiset(pool.positions) == base + multiset(Copies(c, k + 1))
  {
    CopiesSnoc(c, k, []);
    PushShuffled(pool, c);
  }

  /** A despawned entity pushes its cell back onto the pool, which is then reshuffled. */
  method PushShuffled(pool: FreePositions, p: Position)
    modifies pool
    ensures multiset(pool.positions) == multiset(old(pool.positions)) + multiset{p}
  {
    pool.positions := pool.positions + [p];
    pool.Shuffle();
  }

  /**
   * The entities of one kind standing on cell `c` are despawned; each pushes its
   * cell back onto the pool and the pool is reshuffled after every push.
   * Returns the number of such entities.
   */
  method ReturnHits(pool: FreePositions, cells: seq<Position>, c: Position) returns (k: nat)
    modifies pool
    ensures k == multiset(cells)[c]
    ensures multiset(pool.positions) == multiset(old(pool.positions)) + multiset(Copies(c, k))
    ensures k == 0 ==> pool.positions == old(pool.positions)
  {
    ghost var base := multiset(pool.positions);
    k := 0;
    var i := 0;
    while i < |cells|
      invariant 0 <= i <= |cells|
      invariant k == multiset(cells[..i])[c]
      invariant multiset(pool.positions) == base + multiset(Copies(c, k))
      invariant k == 0 ==> pool.positions == old(pool.positions)
    {
      CountSnoc(cells[..i], cells[i], c);
      assert cells[..i + 1] == cells[..i] + [cells[i]];
      if cells[i] == c {
        PushCopy(pool, c, base, k);
        k := k + 1;
      }
      i := i + 1;
    }
    assert cells[..|cells|] == cells;
  }

  /** The number of entities of one kind standing on cell `c`, counted one by one. */
  method CountAt(cells: seq<Position>, c: Position) returns (k: nat)
    ensures k == multiset(cells)[c]
  {
    k := 0;
    var i := 0;
    while i < |cells|
      invariant 0 <= i <= |cells|
      invariant k == multiset(cells[..i])[c]
    {
      CountSnoc(cells[..i], cells[i], c);
      assert cells[..i + 1] == cells[..i] + [cells[i]];
      if cells[i] == c {
        k := k + 1;
      }
      i := i + 1;
    }
    assert cells[..|cells|] == cells;
  }

  /** Despawned entities push their cells, in order, back onto the pool. */
  method ReturnCells(pool: FreePositions, cells: seq<Position>)
    modifies pool
    ensures pool.positions == old(pool.positions) + cells
  {
    for i := 0 to |cells|
      invariant pool.positions == old(pool.positions) + cells[..i]
    {
      assert cells[..i + 1] == cells[..i] + [cells[i]];
      pool.positions := pool.positions + [cells[i]];
    }
    assert cells[..|cells|] == cells;
  }

  /** `despawn_screen::<OnGameScreen>`: every entity of the round is despawned; the segment list is left as it is. */
  method DespawnScreen(w: World)
    modifies w`head, w`foods, w`poisons, w`superfoods, w`antidotes, w`walls
    ensures w.head == None
    ensures w.foods == [] && w.poisons == [] && w.superfoods == [] && w.antidotes == [] && w.walls == []
  {
    w.head := None;
    w.foods, w.poisons, w.superfoods, w.antidotes, w.walls := [], [], [], [], [];
  }
}

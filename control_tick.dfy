/**
 * The four-consumable pipeline (src/control.rs with src/graphics/food.rs and
 * src/systems/gameover.rs). No plugin in the repository registers these
 * systems, so the order here is this model's own: on entering a round the
 * setup systems run, and every fixed tick runs movement, eat,
 * spawn_consumables, spawn_food, growth, limit_immunity, move_antidote and
 * then game_over.
 *
 * `Valid` is the bookkeeping this pipeline keeps. Its point is the `u32`
 * subtraction `new_size - last_special_spawn` of `spawn_consumables`: the mark
 * never exceeds the body length, so the subtraction never wraps. Because at
 * most one superfood and one antidote ever exist, one superfood roll and one
 * antidote heading per tick are all the randomness a tick draws.
 */
module ControlTick {
  import opened Wrappers
  import opened Cells
  import opened Pool
  import opened Events
  import opened State
  import opened Control
  import Diplopod
  import GraphicsFood
  import GraphicsWall
  import DiplopodSetup
  import SystemsGameover
  import WallSetup

  /** The counters of a running round. */
  ghost predicate RoundInv(w: World)
    reads w
  {
    && w.head.Some? && |w.segments| >= 1
    && w.lastSpecialSpawn <= |w.segments|
    && w.lastSpecialSpawn % w.specialInterval == 0
    && |w.superfoods| <= 1 && |w.antidotes| <= 1
  }

  /** Between rounds both counters are zero; during a round `RoundInv` holds. */
  ghost predicate Valid(w: World)
    reads w
  {
    && (w.state != Game ==> w.lastSpecialSpawn == 0 && w.immunity == 0)
    && (w.state == Game ==> RoundInv(w))
  }

  /**
   * The OnEnter systems of a round after the despawn, with every resource
   * present: `init_wall`, then `init_food`, then `init_poison`, then the
   * head's `init`. Building the walls first keeps the opening food and poison
   * off the border.
   */
  method SetupRound(w: World)
    modifies w`head, w`segments, w`foods, w`poisons, w`superfoods, w`antidotes, w`walls, w.pool
    ensures w.segments == [StartCell] && w.head == Some(Zero)
    ensures w.walls == WallSetup.BorderCells()
    ensures w.foods == OpeningPicks(Excluding(old(w.pool.positions), SetOf(w.walls)), w.scale, w.foodAmount)
    ensures w.superfoods == [] && w.antidotes == []
    ensures var free := Excluding(Excluding(old(w.pool.positions), SetOf(w.walls)), SetOf(w.foods));
      && w.poisons == OpeningPicks(free, w.scale, w.poisonAmount)
      && w.pool.positions == Excluding(free, SetOf(w.poisons))
  {
    DespawnScreen(w);
    GraphicsWall.InitWall(w, true);
    GraphicsFood.InitFood(w, true, true);
    InitPoison(w);
    DiplopodSetup.Init(w);
  }

  /** Entering `Game`: the entities of the previous round are despawned and the round is set up. */
  method EnterGame(w: World)
    requires Valid(w) && w.state != Game
    modifies w, w.pool
    ensures Valid(w) && w.state == Game
    ensures w.segments == [StartCell] && w.head == Some(Zero)
    ensures w.superfoods == [] && w.antidotes == []
  {
    SetupRound(w);
    w.state := Game;
  }

  /** `movement` sends no growth and no spawn request. */
  lemma QuietPrefix(moved: seq<Event>, es: seq<Event>)
    requires moved == [] || moved == [GameOver]
    ensures FirstSpawn(moved + es) == FirstSpawn(es) && FirstGrowth(moved + es) == FirstGrowth(es)
  {
    FirstGrowthConcat(moved, es);
    FirstSpawnConcat(moved, es);
    if moved != [] {
      assert moved[1..] == [];
    }
  }

  /**
   * `eat` after the events `movement` sent: the first spawn request (when
   * there is one) announces as many new segments as the first growth request
   * adds, and eating never adds a superfood or an antidote. One superfood roll
   * serves every superfood, since at most one exists.
   */
  method EatStep(w: World, moved: seq<Event>, roll: SuperfoodRoll) returns (events: seq<Event>)
    requires w.head.Some? && |w.segments| >= 1
    requires moved == [] || moved == [GameOver]
    modifies w`foods, w`superfoods, w`antidotes, w`poisons, w`immunity, w.pool
    ensures FirstSpawn(events).Some? ==> FirstGrowth(events) == Some(FirstSpawn(events).value.newSegments)
    ensures |w.superfoods| <= |old(w.superfoods)| && |w.antidotes| <= |old(w.antidotes)|
  {
    var rolls := seq(|w.superfoods|, _ => roll);
    var eaten, c := Eat(w, rolls);
    events := moved + eaten;
    EatFirstsAgree(multiset(old(w.foods))[c], old(w.superfoods), rolls, c, w.segments[0], w.immunity > 0,
                   multiset(old(w.poisons))[c], multiset(w.walls)[c]);
    QuietPrefix(moved, eaten);
    ExcludingShorter(old(w.superfoods), {c});
    ExcludingShorter(old(w.antidotes), {c});
  }

  /**
   * `spawn_consumables` on a body of length at least the mark: a mark it sets is
   * a multiple of the interval not above the announced length, and it leaves at
   * most one superfood and one antidote.
   */
  method SpawnStep(w: World, events: seq<Event>)
    requires w.lastSpecialSpawn <= |w.segments| && w.lastSpecialSpawn % w.specialInterval == 0
    requires |w.superfoods| <= 1 && |w.antidotes| <= 1
    modifies w`poisons, w`superfoods, w`antidotes, w`lastSpecialSpawn, w.pool
    ensures FirstSpawn(events).None? ==> w.lastSpecialSpawn == old(w.lastSpecialSpawn)
    ensures FirstSpawn(events).Some? ==> w.lastSpecialSpawn <= |w.segments| + FirstSpawn(events).value.newSegments
    ensures w.lastSpecialSpawn % w.specialInterval == 0
    ensures |w.superfoods| <= 1 && |w.antidotes| <= 1
  {
    ghost var last0 := w.lastSpecialSpawn;
    Control.SpawnConsumables(w, events);
    if FirstSpawn(events).Some? {
      SpecialCadenceLaw(|w.segments| + FirstSpawn(events).value.newSegments, last0, w.specialInterval);
    }
  }

  /**
   * The stages of a tick before `game_over`, with the draws of the superfood
   * roll and the antidote's heading as parameters: the round's counters hold
   * again afterwards.
   */
  method RoundStep(w: World, roll: SuperfoodRoll, heading: Heading) returns (events: seq<Event>)
    requires RoundInv(w)
    modifies w`segments, w`lastTail, w`foods, w`superfoods, w`antidotes, w`poisons, w`immunity,
             w`lastSpecialSpawn, w.pool
    ensures RoundInv(w)
  {
    var moved := Diplopod.Movement(w);
    events := EatStep(w, moved, roll);
    SpawnStep(w, events);
    GraphicsFood.SpawnFood(w, events);
    Diplopod.Growth(w, events);
    LimitImmunity(w);
    MoveAntidote(w, seq(|w.antidotes|, _ => heading));
  }

  /**
   * One fixed tick of a round. The round ends (next state `Highscore`) exactly
   * when some stage sent `GameOver`; either way `Valid` still holds.
   */
  method Tick(w: World, roll: SuperfoodRoll, heading: Heading) returns (events: seq<Event>)
    requires Valid(w) && w.state == Game
    modifies w, w.pool
    ensures Valid(w)
    ensures w.state == if HasGameOver(events) then Highscore else Game
  {
    events := RoundStep(w, roll, heading);
    SystemsGameover.GameOver(w, events);
  }
}

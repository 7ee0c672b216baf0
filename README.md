# diplopod — a verified model of the game core

This Dafny project models the simulation core of *diplopod*, a grid snake game written in Rust on the Bevy engine. The creature is a list of fine-grid segments. A coarse grid of 22 x 22 cells carries the consumables:

- food;
- poison;
- superfood;
- antidotes.

The walls occupy the border around that grid. A shuffled pool of free coarse cells, the `FreePositions` resource, decides where anything new appears.

The model treats the world as one mutable record, `State.World`. Each Bevy system becomes a method over that record, and its `modifies` clause names the fields the system writes. Events are returned as the sequence the system sends them in.

Two tick pipelines coexist in the repository, and each is modelled in its own module over the shared cell, event and pool types:

- `ClassicTick`: the older food-only pipeline of src/lib.rs:72-79.
  - The chain is movement, then eat, then spawn_food, then growth; show_message is presentation.
  - It is assembled from `Diplopod` and `FoodSpawn`, with the round setup of `FoodSetup`, `WallSetup` and `DiplopodSetup` and the round end of `Gameover`.
  - Its invariant is proved across setup and ticks. The pool holds, once each, exactly the coarse grid cells with no food and no wall. Every food stands on a grid cell without a wall. The walls on the last row and column lie outside the grid.
- `ControlTick`: the four-consumable pipeline of src/control.rs and src/graphics/food.rs.
  - It adds the immunity timer, the special-spawn cadence, the antidote walk, initial poison and the walls of src/graphics/wall.rs.
  - Its round end is `SystemsGameover`.
  - Its invariant covers:
    - the cadence mark: a multiple of the interval and never above the length;
    - at most one superfood and at most one antidote;
    - the counters that `game_over` zeroes.

Randomness is not modelled:

- A shuffle is "some permutation" (`Pool.Permute`).
- The superfood roll `random_range(2..10)` and the antidote's walk direction are parameters within their ranges.

Rust's truncating division is written out explicitly (`Cells.TruncDiv`), since Dafny's `/` is Euclidean. The `u8` immunity timer wraps modulo 256.

## Model

| member | source | states |
|---|---|---|
| Cells.TruncDiv | src/components.rs:20-21 | the quotient rounds toward zero: the remainder has the sign of the dividend and is smaller than the divisor |
| Cells.ToPosition | src/components.rs:17-24 | each coarse coordinate is the truncated quotient by the scale: for a non-negative coordinate `r*S <= p < (r+1)*S`, for a negative one `(r-1)*S < p <= r*S` |
| Pool.GridMembership | src/resources.rs:27-39 | a cell is in the grid scan exactly when `0 <= x < width` and `0 <= y < height` |
| Pool.GridLength | src/resources.rs:27-39 | the grid scan has `width * height` cells |
| Pool.GridNoDuplicates | src/resources.rs:30-34 | the nested loops push each cell once |
| Pool.GridCountsEachCellOnce | src/resources.rs:27-39 | every grid cell occurs exactly once in the scan, and no other cell occurs |
| Pool.GridPermutationCovers | src/resources.rs:36 | any shuffle of the grid still holds each grid cell once and nothing else |
| Pool.NoDupPermutation | src/resources.rs:41-43 | having no duplicates survives a reshuffle |
| Pool.ExcludingMembership | src/resources.rs:45-47 | after removal a cell is present exactly when it was present before and is not one of the removed cells |
| Pool.ExcludingCount | src/resources.rs:45-47 | every copy of a removed cell goes, and every other cell keeps its number of copies |
| Pool.ExcludingOneMultiset | src/resources.rs:45-47 | `remove(p)` sets the count of `p` to zero and leaves every other count |
| Pool.ExcludingSubsequence | src/resources.rs:45-47 | the kept cells keep their relative order |
| Pool.ExcludingUntouched | src/resources.rs:45-47 | removing cells that are absent changes nothing |
| Pool.ExcludingIdempotent | src/resources.rs:45-47 | removing the same cells twice equals removing them once |
| Pool.ExcludingUnion | src/resources.rs:49-53 | removing one batch after another equals removing their union, so `remove_all` is removal of the whole set |
| Pool.ExcludingShorter | src/resources.rs:45-47 | removal never lengthens the vector |
| Pool.ExcludingNoDup | src/resources.rs:45-47 | removal keeps a duplicate-free pool duplicate-free |
| Pool.PopOrderDistinct | src/food/setup.rs:50-69 | cells popped from a duplicate-free list are pairwise distinct and come from that list |
| Pool.FreePositions.constructor | src/resources.rs:18-25 | stores the dimensions and starts from a permutation of the full grid |
| Pool.FreePositions.NewPositions | src/resources.rs:27-39 | the loops build the grid column by column; the result is a permutation of it |
| Pool.FreePositions.Shuffle | src/resources.rs:41-43 | only the order changes: the multiset of cells is kept |
| Pool.FreePositions.Remove | src/resources.rs:45-47 | the new vector is the old one with every copy of `p` dropped and the rest in order |
| Pool.FreePositions.RemoveAll | src/resources.rs:49-53 | the new vector is the old one without any cell of the batch |
| Pool.FreePositions.Clone | src/control.rs:177 | the derived `clone` copies the vector and the dimensions |
| Pool.FreePositions.Reset | src/resources.rs:55-57 | the vector becomes a permutation of the full grid for the stored (unchangeable) width and height |
| Pool.FreePositions.Pop | src/food/spawn.rs:55 | `Vec::pop`: `None` on an empty vector, otherwise the last cell and the vector without it |
| Pool.PopUpTo | src/food/setup.rs:50-69 | takes exactly `PopOrder(candidates, k)` and leaves the candidates shortened by that many cells |
| Pool.RemovePopped | src/food/setup.rs:71-75 | draining the popped cells removes all of them from the pool |
| State.World.constructor | src/lib.rs:84-88 | a world with no entities, default counters and the default `Menu` state |
| State.NewWorld | src/lib.rs:88 | the pool is a 22 x 22 `FreePositions` holding a permutation of its grid |
| State.CandidatesAvoidSegments | src/food/spawn.rs:46-53 | a candidate is exactly a pool cell onto which no segment projects |
| State.OpeningPicksProperties | src/food/setup.rs:34-69 | the opening batch has `min(amount, number of candidates)` cells, all from the pool, none on the head's start cell, and pairwise distinct when the pool is |
| State.ReturnHits | src/control.rs:280-291 | counts the entities on cell `c`, and each one adds one copy of `c` to the pool |
| State.CountAt | src/diplopod.rs:118-122 | counts the walls (or poisons) on cell `c`, one by one |
| State.ReturnCells | src/control.rs:195-208 | despawned superfoods or antidotes push their cells, in order, onto the pool |
| State.DespawnScreen | src/lib.rs:83 | leaving a round despawns every round entity: no head, no consumables, no walls |
| Creature.Advance | src/diplopod.rs:165-167 | the head moves by its direction, and it stays put exactly when the direction is zero |
| Creature.Follow | src/diplopod.rs:165-180 | one step keeps the length, advances the head, and moves each later segment to where its predecessor was |
| Creature.Run | src/control.rs:236-259 | repeated steps keep the creature's length |
| Creature.TrailLaw | src/diplopod.rs:165-180 | after `n` steps, segment `i <= n` lies `n - i` steps ahead of the starting head cell |
| Creature.BodyLaw | src/diplopod.rs:165-180 | after `n` steps, segment `i >= n` sits where segment `i - n` started |
| Creature.MovementLaw | src/control.rs:236-244 | moving right for `n` ticks adds `n` to the head's x and keeps its y |
| Creature.MoveThenGrowOne | src/control.rs:359-372 | a step then a growth of one is the old body with the new head in front |
| Creature.CollisionIntoNeck | src/control.rs:246-250 | turning back into the second segment is a self-collision |
| Creature.CollisionIntoVacatedTail | src/control.rs:246-250 | the pre-move snapshot includes the cell the tail is vacating, so moving onto it ends the round |
| Events.FirstSpawn | src/control.rs:169 | the first `SpawnConsumables` request found, if any, is a spawn request |
| Events.FirstSpawnIsEarliest | src/control.rs:169 | `FirstSpawn` is the earliest spawn request, and it is `None` exactly when there is none |
| Events.FirstGrowthIsEarliest | src/control.rs:359 | `FirstGrowth` is the amount of the earliest `Growth` event, and it is `None` only when there is none |
| Events.FirstGrowthConcat | src/control.rs:359 | the first growth of a concatenation comes from its first part when that part has one |
| Events.FirstSpawnConcat | src/control.rs:169 | the same for the first spawn request |
| Events.RepeatMembership | src/diplopod.rs:107-122 | an event is among `k` repetitions of a burst exactly when `k > 0` and it is in the burst |
| Events.DigitChar | src/control.rs:303 | a digit below ten becomes the character with that value |
| Events.DecimalText | src/control.rs:303 | `to_string` of a number is a non-empty string of digits with no leading zero |
| Events.DecimalRoundTrip | src/control.rs:302-306 | the text a `ShowMessage` carries reads back as the amount of segments it announces |
| Diplopod.Movement | src/diplopod.rs:151-184 | without a head nothing changes; otherwise the segments become one step of `Follow`, `LastTailPosition` is the pre-move tail, and `GameOver` is sent exactly on a self-collision |
| Diplopod.Eat | src/diplopod.rs:96-124 | the foods on the head's cell are removed and their cells return to the pool; each sends `Growth(1)` and `SpawnFood`, and each wall there sends `GameOver` |
| Diplopod.Growth | src/diplopod.rs:126-149 | only the first `Growth` event counts; it appends that many segments, all at the last tail cell, and without one (or with `Growth(0)`) the segments are unchanged |
| DiplopodSetup.Init | src/diplopod/setup.rs:25-50 | the segment list is exactly one head at the arena centre, with direction zero |
| FoodSetup.PlaceInitialFood | src/food/setup.rs:34-75 | the foods gained are the opening picks, and exactly those cells leave the pool |
| FoodSetup.Init | src/food/setup.rs:28-77 | nothing changes without the pool or the tile size; otherwise up to `AMOUNT_OF_FOOD` = 16 foods are placed as above |
| FoodSpawn.SpawnFoodAsWrittenPanics | src/food/spawn.rs:37-50 | as written, the segment query yields no cells, so the `unwrap` fails whenever a segment exists |
| FoodSpawn.SpawnFoodAsWrittenPanicsOnStart | src/food/spawn.rs:37-50 | this already happens for the one-segment creature a round starts with |
| FoodSpawn.SpawnOne | src/food/spawn.rs:46-69 | without candidates nothing changes; otherwise the last candidate becomes a food and only that cell leaves the pool |
| FoodSpawn.SpawnFood | src/food/spawn.rs:33-71 | without a `SpawnFood` event nothing changes; otherwise `SpawnOne` |
| FoodSpawn.SpawnedFoodIsFree | src/food/spawn.rs:52-67 | the food placed is a pool cell, and no segment projects onto it |
| WallSetup.RowsShape | src/wall/setup.rs:37-68 | the first loop pushes exactly the cells with `0 <= x < 23` on rows 0 and 22, without duplicates |
| WallSetup.SidesShape | src/wall/setup.rs:70-101 | the second loop pushes exactly the cells with `1 <= y <= 21` on columns 0 and 22, without duplicates |
| WallSetup.BorderCellsExact | src/wall/setup.rs:37-101 | the wall cells are exactly the border of [0, 22] x [0, 22], pairwise distinct, `2*ARENA_WIDTH + 2*(ARENA_HEIGHT-2)` of them |
| WallSetup.OuterWallsOutsidePool | src/wall/setup.rs:52-55 | a wall with x = 22 or y = 22 is outside the pool grid, so removing it from any pool of grid cells leaves that pool unchanged |
| WallSetup.Init | src/wall/setup.rs:28-109 | nothing changes without the tile size; otherwise the border walls are added and exactly those cells leave the pool |
| GraphicsWall.InitWall | src/graphics/wall.rs:74-155 | the same wall cells as `WallSetup.Init`, pushed by its own loops, and removed from the pool |
| Gameover.CountSegments | src/gameover.rs:48-51 | the last score is the number of segments |
| Gameover.Max | src/gameover.rs:53-55 | the maximum is at least both arguments and is one of them |
| Gameover.GameOver | src/gameover.rs:36-60 | without `GameOver` nothing changes; otherwise the score is the length, the high score is the maximum and never drops, the pool is a permutation of the full grid, and the next state is `Highscore` |
| SystemsGameover.GameOver | src/systems/gameover.rs:33-60 | as `Gameover.GameOver`, and also the cadence mark and the immunity timer become 0 |
| Control.Boosted | src/control.rs:318 | no antidote leaves the timer as it is; without a wrap, `k` antidotes add exactly `10*k` |
| Control.Decay | src/control.rs:406-410 | one tick lowers the timer by at most one, and it stays unchanged exactly when it is already zero |
| Control.Countdown | src/control.rs:406-410 | `n` ticks never raise the timer, and at least one tick lowers a running timer |
| Control.CountdownLaw | src/control.rs:406-410 | `n` ticks of `limit_immunity` leave `t - n`, or 0 once `n >= t` |
| Control.BoostedStep | src/control.rs:318 | one more antidote adds 10 modulo 256 to the timer |
| Control.LimitImmunity | src/control.rs:406-410 | a positive timer drops by one and zero stays zero |
| Control.SuperfoodEventsShape | src/control.rs:294-311 | three events per superfood hit, each a `Growth` or irregular spawn request of 2..9, or a message at the head reading back 2..9, so never `GameOver` |
| Control.SuperfoodEventsTriples | src/control.rs:300-311 | the `j`-th three events are `Growth(n)` with `2 <= n < 10`, the `ShowMessage` of `n` at the head, and an irregular spawn request for `n`, all with the same `n` |
| Control.SuperfoodEventsFirsts | src/control.rs:294-311 | among superfood events, the first spawn request exists exactly when a growth does, and the growth is its `new_segments` |
| Control.RepeatFirsts | src/control.rs:280-291 | repeating a burst `k > 0` times keeps its first growth and first spawn request |
| Control.EatFirstsAgree | src/control.rs:264-343 | when `eat` sends a spawn request, the first growth is its `new_segments`; it is regular exactly when a food was hit, with 1 segment, and otherwise it asks for `2..9` |
| Control.FirstSpawnMember | src/control.rs:169 | the first spawn request is one of the events |
| Control.SuperfoodHits | src/control.rs:294-311 | sends `SuperfoodEvents` and pushes one copy of the head's cell per superfood hit |
| Control.SuperfoodStep | src/control.rs:294-311 | one iteration of that loop |
| Control.AntidoteHits | src/control.rs:314-322 | each antidote on the cell pushes that cell, without a reshuffle, and boosts the timer |
| Control.PoisonHits | src/control.rs:324-335 | with immunity the poisons on the cell are despawned and their cells return; without it they stay |
| Control.EatFoods | src/control.rs:280-311 | food and superfood on the cell are removed and their cells return to the pool |
| Control.EatAntidotesAndPoisons | src/control.rs:314-335 | antidotes go first and raise the timer; the poison rule then uses the raised timer |
| Control.EatAt | src/control.rs:279-342 | the whole `eat`: new entity lists, timer and pool, and events equal to `EatEvents` of the hit counts |
| Control.Eat | src/control.rs:264-343 | without a head nothing changes; otherwise `EatAt` on the head's coarse cell. When no food or superfood is hit, and no poison is hit under immunity, the pool is exactly the old vector plus one copy of the cell per antidote |
| Control.PopOne | src/control.rs:105 | `pop` on a cell list: `None` on empty, otherwise the last cell and the rest |
| Control.SpawnRandomPoison | src/control.rs:65-97 | `min(amount, number of candidates)` poisons on the cells popped from the candidates' end, and those cells leave the pool |
| Control.SpawnRandomOne | src/control.rs:99-155 | pops one candidate, and a popped cell leaves the pool |
| Control.SpawnRandomSuperfood | src/control.rs:99-126 | a popped candidate becomes a superfood and leaves the pool |
| Control.SpawnRandomAntidote | src/control.rs:128-155 | a popped candidate becomes an antidote and leaves the pool |
| Control.InitPoison | src/control.rs:34-63 | the initial poison batch takes the opening picks, skipping the head's start cell, and those cells leave the pool |
| Control.SpecialCadence | src/control.rs:189-202 | the cadence fires exactly when `new_size - last > I`, and a new mark lies above `last` and at most at `new_size` |
| Control.SpecialCadenceLaw | src/control.rs:190-223 | the cadence fires exactly when `new_size - last > I`. The new mark is a multiple of I, at most `new_size` and above `last`, and at least `last + I` when `last` is a multiple. The antidote is cycled exactly when the mark divided by I is even |
| Control.SpecialPicks | src/control.rs:180-223 | a poison only for a regular request, an antidote only when the cadence fires on a cycling mark, a superfood only when it fires, and nothing without candidates |
| Control.SpecialPicksIndices | src/control.rs:180-223 | the poison, antidote and superfood are the candidates at the positions the successive pops reach |
| Control.SpecialPicksLaw | src/control.rs:180-223 | each pick exists exactly when enough candidates remain and it is a candidate; on a duplicate-free candidate list the picks are pairwise distinct |
| Control.SpawnRequestPoison | src/control.rs:180-188 | a regular request spawns one poison from the candidates; an irregular one spawns none |
| Control.SpecialSpawn | src/control.rs:191-223 | sets the mark, returns the superfood cells, spawns a new superfood, and on even intervals also cycles the antidote |
| Control.Respond | src/control.rs:180-223 | the poison and the special spawn answer one request, exactly as the cadence and the picks prescribe |
| Control.SpawnConsumables | src/control.rs:157-226 | only the first request counts; without one nothing changes. The candidates are the pool minus the segments' coarse cells, and `new_size` is the length plus the requested growth. When the cadence does not fire, the pool is exactly the old vector without the new poison's cell |
| Control.Nudge | src/control.rs:379-388 | a walk step moves exactly one cell horizontally or vertically |
| Control.Wander | src/control.rs:379-404 | the antidote moves to the nudged cell exactly when that cell is inside `1..22` on both axes and on no segment; otherwise it stays |
| Control.MoveAntidote | src/control.rs:375-404 | every antidote takes its own `Wander` step; the pool is not touched |
| Control.DivModUnique | src/control.rs:191-202 | the quotient and remainder are unique, used for the cadence mark |
| Control.MulParity | src/control.rs:202 | a multiple `q*I` is a multiple of `2I` exactly when `q` is even |
| GraphicsFood.InitFood | src/graphics/food.rs:85-134 | nothing changes without the pool or the tile size; otherwise up to the crate's food amount of opening picks |
| GraphicsFood.SpawnFood | src/graphics/food.rs:136-177 | only the first request counts, and only a regular one. Then the last candidate, the pool minus the segments' coarse cells, becomes a food and leaves the pool; without a candidate nothing changes |
| ClassicTick.SetupPartition | src/food/setup.rs:71-75 | after the older round setup with walls first, the pool holds once each the grid cells with no food and no wall, and the foods are distinct grid cells without a wall |
| ClassicTick.FoodFirstSetupOverlap | src/food.rs:39 | with food placed before the walls, a pool whose last cell is (0, 5) puts the first food on a border cell that then gets a wall, so the partition fails |
| ClassicTick.EatKeepsPartition | src/diplopod.rs:96-124 | eating off-wall keeps that partition |
| ClassicTick.SpawnKeepsPartition | src/food/spawn.rs:55-69 | spawning a food on a pool cell keeps it |
| ClassicTick.StepKeepsPartition | src/lib.rs:72-79 | one whole older tick keeps it |
| ClassicTick.NoGameOverNoWall | src/diplopod.rs:118-122 | a tick without `GameOver` did not end on a wall |
| ClassicTick.SetupRound | src/wall/setup.rs:28-109 | walls first: the border walls, then the opening foods drawn from the pool without the walls, one head, and the pool loses exactly those cells |
| ClassicTick.EnterGame | src/food.rs:39 | entering a round from a covering pool establishes the partition |
| ClassicTick.MoveAndEat | src/lib.rs:73-74 | movement then eat; without `GameOver` the head's cell holds no wall |
| ClassicTick.SpawnAndGrow | src/lib.rs:75-77 | spawn_food then growth |
| ClassicTick.RoundStep | src/lib.rs:72-79 | one older tick's effect on segments, foods and pool |
| ClassicTick.Tick | src/lib.rs:72-82 | a tick keeps the invariant; the game is over exactly when `GameOver` was sent |
| ControlTick.SetupRound | src/control.rs:34-63 | the newer round setup: the walls, then the opening foods from the pool without them, then the opening poison from what is left, and one head |
| ControlTick.EnterGame | src/graphics/food.rs:44 | entering a round establishes the newer invariant |
| ControlTick.QuietPrefix | src/control.rs:246-250 | an optional `GameOver` from movement changes neither the first growth nor the first spawn request |
| ControlTick.EatStep | src/control.rs:264-343 | after `eat`, a pending spawn request agrees with the first growth, and superfoods and antidotes never multiply |
| ControlTick.SpawnStep | src/control.rs:157-226 | the response keeps the mark a multiple of I, at most the new length, and at most one superfood and one antidote |
| ControlTick.RoundStep | src/control.rs:228-410 | one newer tick keeps the round invariant |
| ControlTick.Tick | src/systems/gameover.rs:33-60 | a tick keeps the invariant; the game is over exactly when `GameOver` was sent |

## Left out

- Rendering, shapes, colours, fonts and window handling are not modelled. This includes the growth colour that depends on immunity (src/control.rs:363-367), ShapeBundles, fading text and superfood rotation.
- Random numbers are not modelled:
  - `shuffle` is an arbitrary permutation.
  - The superfood's `random_range(2..10)` is a parameter of type 2..9.
  - The antidote walk direction is a parameter of four headings.
- Bevy plumbing is not modelled: the Commands, Query and EventReader machinery, run conditions, plugin registration and event buffering across frames.
  - Each system takes the events sent earlier in the same tick.
  - Each system reads all events at once rather than frame by frame.
- `Control.Movement` and `Control.Growth` are not separate members. They are the same code as src/diplopod.rs apart from colour, so the newer pipeline uses `Diplopod.Movement` and `Diplopod.Growth`.
- No registration wires the systems of src/control.rs or src/systems, since the module list of src/lib.rs:1-13 declares neither. The order of `ControlTick.RoundStep` is therefore a choice: movement, eat, spawn_consumables, spawn_food, growth, limit_immunity, move_antidote.
- The OnEnter setups are not ordered against each other in the source (src/food.rs:39, src/wall.rs:33, src/graphics/food.rs:44). The model builds the walls first, then food, then poison, then the head. In the source `init_poison` writes the pool at once, while `init_food` and `init_wall` queue closures that run later, so the poison would be drawn first. `ControlTick.SetupRound` does not model that order.
- `game_over` is an `Update` system in the source (src/gameover.rs:26-31, src/systems/gameover.rs:23-28), not part of the fixed tick. The model runs it at the end of each tick. Its `NextState` change is applied at once, rather than at the next state transition.
- `despawn_screen` runs at `OnExit(Game)` (src/lib.rs:83). The model despawns at the start of the next round's setup. Nothing reads the entities in between.
- ControlTick.RoundInv says nothing about the pool. An antidote can walk onto a food, and superfood or antidote cells are pushed back at src/control.rs:195-208. So a cell that holds a consumable can re-enter the pool, and a second consumable can be spawned on it. The newer pipeline therefore keeps no pool invariant.
- The empty entity `commands.spawn((OnGameScreen,))` after an antidote hit (src/control.rs:320) is not modelled, since it carries no component the game reads.
- The unreachable `_ => ()` arm of `move_antidote` (it arises from `random_range(0..4)`) is not modelled.
- Control.Boosted: `immunity_time.0 += 10` on a `u8` is modelled with release-build wrap-around, not with the debug-build overflow panic.
- Control.SpawnConsumables: the `u32` subtraction `new_size - last` is modelled under the caller's guarantee `last <= new_size`. `ControlTick` proves that guarantee as an invariant, so the wrap never arises there.
- Gameover.CountSegments: the `u16` score is an unbounded integer; overflow past 65535 segments is not modelled.
- Control.MoveAntidote leaves the pool as it is, as the source does (src/control.rs:401-402).
- Control.AntidoteHits pushes the antidote's cell without a reshuffle, as the source does (src/control.rs:317).
- The presence of `TileSize` is a boolean parameter. For the food setups, so is the presence of `FreePositions`.
- The wall setups always remove their cells from the pool. In the source the walls are spawned even without the pool, and only the removal is skipped (src/wall/setup.rs:103-107, src/graphics/wall.rs:148-152). That case never arises, because src/lib.rs:88 inserts the pool at startup.
- `ShowMessage.position` is declared a `Position` (src/events.rs:8). The call site passes the head's `DiplopodPosition` (src/control.rs:304). The model keeps the passed value: the field is a `DiplopodPosition`.
- `CONSUMABLE_SCALE_FACTOR`, `SPECIAL_SPAWN_INTERVAL`, `AMOUNT_OF_POISON` and the crate-level `AMOUNT_OF_FOOD` are positive parameters, because src/lib.rs does not show their values.
- `show_message` and src/events.rs beyond the event data are presentation only.
- The idle systems of the menu, high-score and pause screens are not modelled.

## Findings

| source | as written | input that shows it | evidently intended | confidence | as-written member | corrected member |
|---|---|---|---|---|---|---|
| src/food/spawn.rs:37-50 | `spawn_food` queries the `Position` component of the segment entities. Segments carry only a `DiplopodPosition`, so the query yields nothing and `.unwrap()` panics | any creature with at least one segment, e.g. the start creature `[StartCell]` | project each segment with `to_position`, as src/graphics/food.rs:150-158 does | not executed | FoodSpawn.SpawnFoodAsWrittenPanicsOnStart | FoodSpawn.SpawnFood |
| src/food.rs:39 | the food and wall setups are two unordered `OnEnter(Game)` systems (src/wall.rs:33), so food can be placed first on a border cell that then receives a wall | a pool whose last cell is (0, 5) | build the walls before placing food, so that no food stands on a wall | not executed | ClassicTick.FoodFirstSetupOverlap | ClassicTick.SetupRound |

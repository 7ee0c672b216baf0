/**
 * `spawn_food` of the older pipeline (src/food/spawn.rs): one food per tick
 * with a pending `SpawnFood` event, at the last candidate cell.
 */
module FoodSpawn {
  import opened Wrappers
  import opened Cells
  import opened Pool
  import opened Events
  import opened State

  /**
   * The `Position` component of a segment entity. The older systems spawn
   * segment entities with a `DiplopodPosition` and no `Position`
   * (src/diplopod.rs:186-205, src/diplopod/setup.rs:40-47), so the lookup finds none.
   */
  function SegmentPositionComponent(seg: DiplopodPosition): Option<Position> {
    None
  }

  /**
   * The segment cells as src/food/spawn.rs collects them: a `Position` lookup
   * per segment entity, unwrapped. `None` stands for the panic of the first
   * failing `unwrap`.
   */
  function SegmentPositionsAsWritten(segs: seq<DiplopodPosition>): Option<seq<Position>>
    decreases |segs|
  {
    if segs == [] then Some([])
    else match (SegmentPositionComponent(segs[0]), SegmentPositionsAsWritten(segs[1..]))
      case (Some(p), Some(rest)) => Some([p] + rest)
      case _ => None
  }

  /** As written, the system panics whenever a segment exists, e.g. right after the head is set up. */
  lemma SpawnFoodAsWrittenPanics(segs: seq<DiplopodPosition>)
    requires |segs| >= 1
    ensures SegmentPositionsAsWritten(segs) == None
  {
  }

  lemma SpawnFoodAsWrittenPanicsOnStart()
    ensures SegmentPositionsAsWritten([StartCell]) == None
  {
    SpawnFoodAsWrittenPanics([StartCell]);
  }

  /**
   * The spawn itself (src/food/spawn.rs:46-69, src/graphics/food.rs:150-175):
   * a clone of the pool loses the coarse cells of all segments, its last cell
   * (if any) becomes a food and is removed from the pool; no other pool cell
   * changes.
   */
  method SpawnOne(w: World)
    modifies w`foods, w.pool
    ensures var cand := Candidates(old(w.pool.positions), w.segments, w.scale);
      && (cand == [] ==> w.foods == old(w.foods) && w.pool.positions == old(w.pool.positions))
      && (cand != [] ==>
            && w.foods == old(w.foods) + [cand[|cand| - 1]]
            && w.pool.positions == Excluding(old(w.pool.positions), {cand[|cand| - 1]}))
  {
    var segmentPositions := Project(w.segments, w.scale);
    var candidates := new FreePositions.Clone(w.pool);
    candidates.RemoveAll(segmentPositions);
    var pos := candidates.Pop();
    if pos.Some? {
      w.foods := w.foods + [pos.value];
      w.pool.Remove(pos.value);
    }
  }

  /**
   * `spawn_food`, with the segment cells taken as their coarse projections
   * (as src/graphics/food.rs does). Without a pending `SpawnFood` event nothing
   * changes; otherwise one food is spawned at the last candidate, if there is one.
   */
  method SpawnFood(w: World, events: seq<Event>)
    modifies w`foods, w.pool
    ensures !HasSpawnFood(events) ==> w.foods == old(w.foods) && w.pool.positions == old(w.pool.positions)
    ensures HasSpawnFood(events) ==>
      var cand := Candidates(old(w.pool.positions), w.segments, w.scale);
      && (cand == [] ==> w.foods == old(w.foods) && w.pool.positions == old(w.pool.positions))
      && (cand != [] ==>
            && w.foods == old(w.foods) + [cand[|cand| - 1]]
            && w.pool.positions == Excluding(old(w.pool.positions), {cand[|cand| - 1]}))
  {
    if !HasSpawnFood(events) {
      return;
    }
    SpawnOne(w);
  }

  /** The food `spawn_food` places lies in the pool and under no segment. */
  lemma SpawnedFoodIsFree(pool: seq<Position>, segs: seq<DiplopodPosition>, scale: Positive)
    requires Candidates(pool, segs, scale) != []
    ensures var cand := Candidates(pool, segs, scale);
            var p := cand[|cand| - 1];
            p in pool && forall i :: 0 <= i < |segs| ==> ToPosition(segs[i], scale) != p
  {
    var cand := Candidates(pool, segs, scale);
    CandidatesAvoidSegments(pool, segs, scale, cand[|cand| - 1]);
  }
}

/**
 * The older creature systems of src/diplopod.rs: `movement`, `eat` (food and
 * walls only) and `growth`. Events are returned as the list of events the
 * system sends, in sending order.
 */
module Diplopod {
  import opened Wrappers
  import opened Cells
  import opened Pool
  import opened Events
  import opened Creature
  import opened State

  /**
   * `movement`: with a head entity, the head advances by its direction, every
   * later segment takes the pre-move cell of its predecessor, `LastTailPosition`
   * becomes the pre-move tail cell, and `GameOver` is sent when the moving head
   * lands on a cell of the pre-move snapshot. Without a head, nothing changes.
   */
  method Movement(w: World) returns (events: seq<Event>)
    requires w.head.Some? ==> |w.segments| >= 1
    modifies w`segments, w`lastTail
    ensures w.head.None? ==> w.segments == old(w.segments) && w.lastTail == old(w.lastTail) && events == []
    ensures w.head.Some? ==>
      && w.segments == Follow(old(w.segments), w.head.value)
      && w.lastTail == Some(old(w.segments)[|old(w.segments)| - 1])
      && events == (if SelfCollision(old(w.segments), w.head.value) then [GameOver] else [])
  {
    events := [];
    if w.head.Some? {
      var direction := w.head.value;
      var snapshot := w.segments;
      w.segments := w.segments[0 := Advance(snapshot[0], direction)];
      if w.segments[0] in snapshot && !direction.IsZero() {
        events := [GameOver];
      }
      var i := 0;
      while i < |snapshot| - 1
        invariant 0 <= i <= |snapshot| - 1
        invariant |w.segments| == |snapshot|
        invariant w.segments[0] == Advance(snapshot[0], direction)
        invariant forall k :: 1 <= k <= i ==> w.segments[k] == snapshot[k - 1]
        invariant forall k :: i < k < |snapshot| ==> w.segments[k] == snapshot[k]
      {
        w.segments := w.segments[i + 1 := snapshot[i]];
        i := i + 1;
      }
      assert w.segments == Follow(snapshot, direction);
      w.lastTail := Some(snapshot[|snapshot| - 1]);
    }
  }

  /** The events of `k` food hits in the older pipeline. */
  function FoodHitEvents(k: nat): seq<Event> {
    Repeat([Event.Growth(1), SpawnFood], k)
  }

  /**
   * `eat`: every food on the head's coarse cell is despawned, its cell pushed
   * back onto the pool (with a reshuffle) and `Growth(1)` and `SpawnFood` sent;
   * then every wall on that cell sends `GameOver`. Without a head, nothing
   * happens.
   */
  method Eat(w: World) returns (events: seq<Event>)
    requires w.head.Some? ==> |w.segments| >= 1
    modifies w`foods, w.pool
    ensures w.head.None? ==> w.foods == old(w.foods) && w.pool.positions == old(w.pool.positions) && events == []
    ensures w.head.Some? ==>
      var c := w.HeadCell();
      var k := multiset(old(w.foods))[c];
      && w.foods == Excluding(old(w.foods), {c})
      && multiset(w.pool.positions) == multiset(old(w.pool.positions)) + multiset(Copies(c, k))
      && events == FoodHitEvents(k) + Repeat([GameOver], multiset(w.walls)[c])
  {
    events := [];
    if w.head.Some? {
      var c := w.HeadCell();
      var k := ReturnHits(w.pool, w.foods, c);
      w.foods := Excluding(w.foods, {c});
      var hits := CountAt(w.walls, c);
      events := FoodHitEvents(k) + Repeat([GameOver], hits);
    }
  }

  /**
   * `growth`: only the first `Growth` event is handled; it appends that many
   * segments, all at `LastTailPosition`. The unwrap of `LastTailPosition`
   * requires it to be set whenever segments are added.
   */
  method Growth(w: World, events: seq<Event>)
    requires FirstGrowth(events).Some? && FirstGrowth(events).value > 0 ==> w.lastTail.Some?
    modifies w`segments
    ensures FirstGrowth(events).None? || FirstGrowth(events) == Some(0) ==> w.segments == old(w.segments)
    ensures FirstGrowth(events).Some? && FirstGrowth(events).value > 0 ==>
      w.segments == Grown(old(w.segments), w.lastTail.value, FirstGrowth(events).value)
    ensures |w.segments| == |old(w.segments)| + (if FirstGrowth(events).Some? then FirstGrowth(events).value else 0)
  {
    var growth := FirstGrowth(events);
    if growth.Some? {
      var i := 0;
      while i < growth.value
        invariant 0 <= i <= growth.value
        invariant i > 0 ==> w.lastTail.Some? && w.segments == Grown(old(w.segments), w.lastTail.value, i)
        invariant i == 0 ==> w.segments == old(w.segments)
      {
        w.segments := w.segments + [w.lastTail.value];
        i := i + 1;
      }
    }
  }
}

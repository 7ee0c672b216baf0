/**
 * The newer round end (src/systems/gameover.rs `game_over`): as the older one,
 * and it also zeroes `LastSpecialSpawn` and `ImmunityTime`.
 */
module SystemsGameover {
  import opened Cells
  import opened Pool
  import opened Events
  import opened State
  import Gameover

  /**
   * `game_over`: without a pending `GameOver` event nothing changes. Otherwise
   * `lastscore` is the segment count, `highscore` the larger of itself and
   * `lastscore`, the pool is reset to the full grid, both counters are zero and
   * `Highscore` is the next state.
   */
  method GameOver(w: World, events: seq<Event>)
    modifies w`lastscore, w`highscore, w`state, w`lastSpecialSpawn, w`immunity, w.pool
    ensures !HasGameOver(events) ==>
      && w.lastscore == old(w.lastscore) && w.highscore == old(w.highscore)
      && w.state == old(w.state) && w.pool.positions == old(w.pool.positions)
      && w.lastSpecialSpawn == old(w.lastSpecialSpawn) && w.immunity == old(w.immunity)
    ensures HasGameOver(events) ==>
      && w.lastscore == |w.segments|
      && w.highscore == Gameover.Max(old(w.highscore), |w.segments|)
      && CoversGrid(w.pool.positions, w.pool.width, w.pool.height)
      && w.lastSpecialSpawn == 0 && w.immunity == 0
      && w.state == Highscore
  {
    if HasGameOver(events) {
      w.lastscore := 0;
      for i := 0 to |w.segments|
        invariant w.lastscore == i
        invariant w.highscore == old(w.highscore)
      {
        w.lastscore := w.lastscore + 1;
      }
      if w.lastscore > w.highscore {
        w.highscore := w.lastscore;
      }
      w.pool.Reset();
      GridPermutationCovers(w.pool.positions, w.pool.width, w.pool.height);
      w.lastSpecialSpawn := 0;
      w.immunity := 0;
      w.state := Highscore;
    }
  }
}

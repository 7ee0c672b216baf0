/**
 * The older round end (src/gameover.rs `game_over`): on a `GameOver` event the
 * score is the number of segment entities, the high score keeps the maximum,
 * the pool is rebuilt and the next state is `Highscore`.
 */
module Gameover {
  import opened Cells
  import opened Pool
  import opened Events
  import opened State

  /** The loop `for _ in segments.iter() { lastscore.0 += 1; }` over the segment entities. */
  method CountSegments(w: World)
    modifies w`lastscore
    ensures w.lastscore == |w.segments|
  {
    w.lastscore := 0;
    for i := 0 to |w.segments|
      invariant w.lastscore == i
    {
      w.lastscore := w.lastscore + 1;
    }
  }

  /**
   * `game_over`: without a pending `GameOver` event nothing changes. Otherwise
   * `lastscore` is the segment count, `highscore` becomes the larger of itself
   * and `lastscore`, the pool is reset to the full grid and `Highscore` is the
   * next state. Only these four are written.
   */
  method GameOver(w: World, events: seq<Event>)
    modifies w`lastscore, w`highscore, w`state, w.pool
    ensures !HasGameOver(events) ==>
      && w.lastscore == old(w.lastscore) && w.highscore == old(w.highscore)
      && w.state == old(w.state) && w.pool.positions == old(w.pool.positions)
    ensures HasGameOver(events) ==>
      && w.lastscore == |w.segments|
      && w.highscore == Max(old(w.highscore), |w.segments|)
      && CoversGrid(w.pool.positions, w.pool.width, w.pool.height)
      && w.state == Highscore
  {
    if !HasGameOver(events) {
      return;
    }
    CountSegments(w);
    if w.lastscore > w.highscore {
      w.highscore := w.lastscore;
    }
    w.pool.Reset();
    GridPermutationCovers(w.pool.positions, w.pool.width, w.pool.height);
    w.state := Highscore;
  }

  function Max(a: int, b: int): (m: int)
    ensures m >= a && m >= b && (m == a || m == b)
  {
    if a >= b then a else b
  }
}

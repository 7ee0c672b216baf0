/**
 * The value-level laws of the creature: one movement step (the follow-the-leader
 * shift of src/diplopod.rs:151-184 and src/control.rs:228-261), the
 * self-collision test, and growth at the recorded tail cell
 * (src/diplopod.rs:126-149, src/control.rs:345-373).
 */
module Creature {
  import opened Cells

  /** The head's new cell; it stays put exactly when the direction is zero. */
  function Advance(p: DiplopodPosition, d: Direction): (r: DiplopodPosition)
    ensures r == p <==> d.IsZero()
  {
    DiplopodPosition(p.x + d.dx, p.y + d.dy)
  }

  /** The segment cells after one step: the head advances, every other segment takes its predecessor's old cell. */
  function Follow(segs: seq<DiplopodPosition>, d: Direction): (r: seq<DiplopodPosition>)
    requires |segs| >= 1
    ensures |r| == |segs|
    ensures r[0] == Advance(segs[0], d)
    ensures forall i :: 1 <= i < |r| ==> r[i] == segs[i - 1]
  {
    [Advance(segs[0], d)] + segs[..|segs| - 1]
  }

  /** The new head lands on a cell of the pre-move snapshot while the head is moving. */
  predicate SelfCollision(segs: seq<DiplopodPosition>, d: Direction)
    requires |segs| >= 1
  {
    !d.IsZero() && Advance(segs[0], d) in segs
  }

  /** `n` consecutive steps in direction `d`. */
  function Run(segs: seq<DiplopodPosition>, d: Direction, n: nat): (r: seq<DiplopodPosition>)
    requires |segs| >= 1
    ensures |r| == |segs|
    decreases n
  {
    if n == 0 then segs else Follow(Run(segs, d, n - 1), d)
  }

  function Offset(p: DiplopodPosition, d: Direction, k: int): DiplopodPosition {
    DiplopodPosition(p.x + k * d.dx, p.y + k * d.dy)
  }

  /** After `n` steps, segment `i <= n` lies `n - i` steps ahead of where the head started. */
  lemma {:induction false} TrailLaw(segs: seq<DiplopodPosition>, d: Direction, n: nat, i: nat)
    requires |segs| >= 1 && i < |segs| && i <= n
    ensures Run(segs, d, n)[i] == Offset(segs[0], d, n - i)
    decreases n
  {
    if n > 0 {
      if i == 0 {
        TrailLaw(segs, d, n - 1, 0);
        assert (n - 1) * d.dx + d.dx == n * d.dx;
        assert (n - 1) * d.dy + d.dy == n * d.dy;
      } else {
        TrailLaw(segs, d, n - 1, i - 1);
      }
    }
  }

  /** After `n` steps, segment `i >= n` sits where segment `i - n` sat at the start. */
  lemma {:induction false} BodyLaw(segs: seq<DiplopodPosition>, d: Direction, n: nat, i: nat)
    requires |segs| >= 1 && n <= i < |segs|
    ensures Run(segs, d, n)[i] == segs[i - n]
    decreases n
  {
    if n > 0 {
      BodyLaw(segs, d, n - 1, i - 1);
    }
  }

  /** Moving right for `n` unobstructed ticks adds exactly `n` to the head's x and leaves its y. */
  lemma MovementLaw(segs: seq<DiplopodPosition>, n: nat)
    requires |segs| >= 1
    ensures Run(segs, Direction(1, 0), n)[0] == DiplopodPosition(segs[0].x + n, segs[0].y)
  {
    TrailLaw(segs, Direction(1, 0), n, 0);
  }

  /** `k` new segments, all at the recorded tail cell. */
  function Grown(segs: seq<DiplopodPosition>, tail: DiplopodPosition, k: nat): seq<DiplopodPosition> {
    segs + seq(k, _ => tail)
  }

  /** A step followed by a growth of one keeps the whole old body and puts the new head in front. */
  lemma MoveThenGrowOne(segs: seq<DiplopodPosition>, d: Direction)
    requires |segs| >= 1
    ensures Grown(Follow(segs, d), segs[|segs| - 1], 1) == [Advance(segs[0], d)] + segs
  {
    var n := |segs| - 1;
    assert seq(1, _ => segs[n]) == [segs[n]];
    assert segs[..n] + [segs[n]] == segs;
  }

  /** The collision example of moving left into the second segment. */
  lemma CollisionIntoNeck()
    ensures SelfCollision([DiplopodPosition(5, 5), DiplopodPosition(4, 5), DiplopodPosition(3, 5)], Direction(-1, 0))
  {
  }

  /** The snapshot includes the tail's cell although the tail leaves it in the same step. */
  lemma CollisionIntoVacatedTail()
    ensures var segs := [DiplopodPosition(1, 0), DiplopodPosition(1, 1), DiplopodPosition(0, 1), DiplopodPosition(0, 0)];
            var d := Direction(-1, 0);
            SelfCollision(segs, d) && Follow(segs, d)[0] !in Follow(segs, d)[1..]
  {
    var segs := [DiplopodPosition(1, 0), DiplopodPosition(1, 1), DiplopodPosition(0, 1), DiplopodPosition(0, 0)];
    var f := Follow(segs, Direction(-1, 0));
    assert f[1..] == [DiplopodPosition(1, 0), DiplopodPosition(1, 1), DiplopodPosition(0, 1)];
  }
}

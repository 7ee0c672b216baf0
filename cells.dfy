/**
 * Cell types, the head direction, the game states and the crate constants
 * (src/components.rs, src/lib.rs). The fine grid is the one the creature's
 * segments live on (`DiplopodPosition`); the coarse grid holds consumables and
 * walls (`Position`). A fine cell is projected onto the coarse grid by a
 * truncating division by the scale factor.
 */
module Cells {
  /** Width and height of the coarse grid the free-cell pool is built over. */
  const CONSUMABLE_WIDTH: int := 22
  const CONSUMABLE_HEIGHT: int := 22
  /** The arena is one cell wider and higher than the coarse grid. */
  const ARENA_WIDTH: int := CONSUMABLE_WIDTH + 1
  const ARENA_HEIGHT: int := CONSUMABLE_HEIGHT + 1

  /** Crate constants whose values are not part of this model are positive parameters. */
  type Positive = n: int | n > 0 witness 1

  /** One component of a head direction: the float vector is cast to i32, and only -1, 0 and 1 occur. */
  type Step = i: int | -1 <= i <= 1

  /** The direction carried by the head; the zero vector means "not yet moving". */
  datatype Direction = Direction(dx: Step, dy: Step) {
    predicate IsZero() { dx == 0 && dy == 0 }
  }

  const Zero: Direction := Direction(0, 0)

  /** A cell of the fine grid. Equality is componentwise, as the derived `PartialEq` is. */
  datatype DiplopodPosition = DiplopodPosition(x: int, y: int)

  /** A cell of the coarse grid. Equality is componentwise, as the derived `PartialEq` is. */
  datatype Position = Position(x: int, y: int)

  /** The round phase; `Menu` is the default state. */
  datatype GameState = Menu | Game | Highscore

  const DefaultGameState: GameState := Menu

  /**
   * Rust's `/` on i32: the quotient is truncated toward zero, so the remainder
   * has the sign of the dividend (Dafny's own `/` is Euclidean).
   */
  function TruncDiv(a: int, b: Positive): (q: int)
    ensures a >= 0 ==> 0 <= a - q * b < b
    ensures a < 0 ==> -(b as int) < a - q * b <= 0
  {
    if a >= 0 then a / b else -((-a) / b)
  }

  /**
   * `DiplopodPosition::to_position`: the coarse cell a fine cell lies in. For a
   * non-negative coordinate the fine coordinate lies in the block
   * [q * scale, (q + 1) * scale); for a negative one truncation rounds toward zero.
   */
  function ToPosition(p: DiplopodPosition, scale: Positive): (r: Position)
    ensures p.x >= 0 ==> r.x * scale <= p.x < (r.x + 1) * scale
    ensures p.y >= 0 ==> r.y * scale <= p.y < (r.y + 1) * scale
    ensures p.x < 0 ==> (r.x - 1) * scale < p.x <= r.x * scale
    ensures p.y < 0 ==> (r.y - 1) * scale < p.y <= r.y * scale
  {
    Position(TruncDiv(p.x, scale), TruncDiv(p.y, scale))
  }

  /** The coarse projections of a list of fine cells, in order. */
  function Project(segs: seq<DiplopodPosition>, scale: Positive): (r: seq<Position>)
    ensures |r| == |segs|
    ensures forall i :: 0 <= i < |segs| ==> r[i] == ToPosition(segs[i], scale)
  {
    seq(|segs|, i requires 0 <= i < |segs| => ToPosition(segs[i], scale))
  }

  /** The start cell of the head, (ARENA_WIDTH / 2, ARENA_HEIGHT / 2) on the fine grid. */
  const StartCell: DiplopodPosition := DiplopodPosition(ARENA_WIDTH / 2, ARENA_HEIGHT / 2)
}

/** The round's initial creature (src/diplopod/setup.rs `init`). */
module DiplopodSetup {
  import opened Wrappers
  import opened Cells
  import opened State

  /**
   * `init`: the segment list is replaced by one new entity that is both the
   * head, with direction zero, and a segment, at the arena centre.
   */
  method Init(w: World)
    modifies w`segments, w`head
    ensures w.segments == [StartCell]
    ensures w.head == Some(Zero)
  {
    w.segments := [StartCell];
    w.head := Some(Zero);
  }
}

/**
 * The free-cell pool `FreePositions` (src/resources.rs): a vector of coarse
 * cells, built as the full grid in random order, from which spawns pop cells
 * and from which occupied cells are removed. The value-level functions here
 * (`Grid`, `Excluding`, `PopOrder`) are what the in-place methods of the class
 * are proved against.
 */
module Pool {
  import opened Wrappers
  import opened Cells

  predicate InGrid(p: Position, w: int, h: int) {
    0 <= p.x < w && 0 <= p.y < h
  }

  predicate NoDup(s: seq<Position>) {
    forall i, j :: 0 <= i < j < |s| ==> s[i] != s[j]
  }

  function SetOf(s: seq<Position>): set<Position> {
    set p | p in s
  }

  function Min(a: int, b: int): int {
    if a <= b then a else b
  }

  // ---------------------------------------------------------------------------
  // The grid in the scan order of `new_positions`' nested loops
  // ---------------------------------------------------------------------------

  /** Column x: the cells the inner loop `for y in 0..height` pushes. */
  function Column(x: int, h: int): seq<Position>
    decreases h
  {
    if h <= 0 then [] else Column(x, h - 1) + [Position(x, h - 1)]
  }

  /** All cells of [0, w) x [0, h), column by column, before the shuffle. */
  function Grid(w: int, h: int): seq<Position>
    decreases w
  {
    if w <= 0 then [] else Grid(w - 1, h) + Column(w - 1, h)
  }

  lemma {:induction false} ColumnShape(x: int, h: int)
    ensures |Column(x, h)| == if h <= 0 then 0 else h
    ensures forall i :: 0 <= i < |Column(x, h)| ==> Column(x, h)[i] == Position(x, i)
    decreases h
  {
    if h > 0 {
      ColumnShape(x, h - 1);
    }
  }

  lemma {:induction false} ColumnMembership(x: int, h: int, p: Position)
    ensures p in Column(x, h) <==> p.x == x && 0 <= p.y < h
    decreases h
  {
    if h > 0 {
      ColumnMembership(x, h - 1, p);
    }
  }

  /** `new_positions` yields exactly the cells (x, y) with 0 <= x < w and 0 <= y < h. */
  lemma {:induction false} GridMembership(w: int, h: int, p: Position)
    ensures p in Grid(w, h) <==> InGrid(p, w, h)
    decreases w
  {
    if w > 0 {
      var g, col := Grid(w - 1, h), Column(w - 1, h);
      GridMembership(w - 1, h, p);
      ColumnMembership(w - 1, h, p);
      assert Grid(w, h) == g + col;
      if p in g + col {
        assert p in g || p in col;
      }
    }
  }

  /** The grid holds w * h cells (none when a dimension is not positive: the loops do not run). */
  lemma {:induction false} GridLength(w: int, h: int)
    ensures |Grid(w, h)| == if w <= 0 || h <= 0 then 0 else w * h
    decreases w
  {
    if w > 0 {
      GridLength(w - 1, h);
      ColumnShape(w - 1, h);
      if h > 0 {
        assert (w - 1) * h + h == w * h;
      }
    }
  }

  lemma NoDupSnoc(s: seq<Position>, x: Position)
    requires NoDup(s) && x !in s
    ensures NoDup(s + [x])
  {
  }

  lemma {:induction false} NoDupConcat(a: seq<Position>, b: seq<Position>)
    requires NoDup(a) && NoDup(b)
    requires forall i, j :: 0 <= i < |a| && 0 <= j < |b| ==> a[i] != b[j]
    ensures NoDup(a + b)
  {
    forall i, j | 0 <= i < j < |a + b|
      ensures (a + b)[i] != (a + b)[j]
    {
      if j < |a| {
        assert (a + b)[i] == a[i] && (a + b)[j] == a[j];
      } else if i >= |a| {
        assert (a + b)[i] == b[i - |a|] && (a + b)[j] == b[j - |a|];
      } else {
        assert (a + b)[i] == a[i] && (a + b)[j] == b[j - |a|];
      }
    }
  }

  /** No cell occurs twice in the grid. */
  lemma {:induction false} GridNoDuplicates(w: int, h: int)
    ensures NoDup(Grid(w, h))
    decreases w
  {
    if w > 0 {
      GridNoDuplicates(w - 1, h);
      ColumnShape(w - 1, h);
      var g, c := Grid(w - 1, h), Column(w - 1, h);
      forall i, j | 0 <= i < |g| && 0 <= j < |c|
        ensures g[i] != c[j]
      {
        GridMembership(w - 1, h, g[i]);
      }
      NoDupConcat(Grid(w - 1, h), Column(w - 1, h));
    }
  }

  /** In a sequence without duplicates every element occurs exactly once. */
  lemma {:induction false} NoDupCount(s: seq<Position>, p: Position)
    requires NoDup(s)
    ensures multiset(s)[p] == if p in s then 1 else 0
    decreases |s|
  {
    if s != [] {
      var n := |s| - 1;
      assert s == s[..n] + [s[n]];
      assert NoDup(s[..n]);
      NoDupCount(s[..n], p);
      assert s[n] !in s[..n];
    }
  }

  lemma TwoOccurrences(s: seq<Position>, i: int, j: int)
    requires 0 <= i < j < |s| && s[i] == s[j]
    ensures multiset(s)[s[i]] >= 2
  {
    assert s == s[..i] + [s[i]] + s[i + 1..j] + [s[j]] + s[j + 1..];
  }

  /** Having no duplicates depends only on the multiset: a shuffle keeps it. */
  lemma NoDupPermutation(a: seq<Position>, b: seq<Position>)
    requires NoDup(a) && multiset(a) == multiset(b)
    ensures NoDup(b)
  {
    forall i, j | 0 <= i < j < |b|
      ensures b[i] != b[j]
    {
      if b[i] == b[j] {
        TwoOccurrences(b, i, j);
        NoDupCount(a, b[i]);
        assert false;
      }
    }
  }

  /** Every cell of [0, w) x [0, h) occurs exactly once in the grid, and no other cell occurs. */
  lemma GridCountsEachCellOnce(w: int, h: int, p: Position)
    ensures multiset(Grid(w, h))[p] == if InGrid(p, w, h) then 1 else 0
  {
    GridNoDuplicates(w, h);
    NoDupCount(Grid(w, h), p);
    GridMembership(w, h, p);
  }

  /** `s` holds every cell of [0, w) x [0, h) once and no other cell. */
  ghost predicate CoversGrid(s: seq<Position>, w: int, h: int) {
    NoDup(s) && forall c :: c in s <==> InGrid(c, w, h)
  }

  /** Any permutation of the grid covers the grid. */
  lemma GridPermutationCovers(s: seq<Position>, w: int, h: int)
    requires multiset(s) == multiset(Grid(w, h))
    ensures CoversGrid(s, w, h)
  {
    GridNoDuplicates(w, h);
    NoDupPermutation(Grid(w, h), s);
    forall c
      ensures c in s <==> InGrid(c, w, h)
    {
      GridMembership(w, h, c);
      assert c in s <==> multiset(s)[c] > 0;
      assert c in Grid(w, h) <==> multiset(Grid(w, h))[c] > 0;
    }
  }

  // ---------------------------------------------------------------------------
  // Removal: `retain(|q| q != p)` and its batched form
  // ---------------------------------------------------------------------------

  /** `s` with every copy of every cell of `cells` dropped, the rest kept in order. */
  function Excluding(s: seq<Position>, cells: set<Position>): seq<Position>
    decreases |s|
  {
    if s == [] then []
    else Excluding(s[..|s| - 1], cells) + (if s[|s| - 1] in cells then [] else [s[|s| - 1]])
  }

  /** `a` is `b` with some elements left out, the remaining ones in their original order. */
  predicate IsSubsequence(a: seq<Position>, b: seq<Position>)
    decreases |b|
  {
    if a == [] then true
    else if b == [] then false
    else (a[|a| - 1] == b[|b| - 1] && IsSubsequence(a[..|a| - 1], b[..|b| - 1]))
         || IsSubsequence(a, b[..|b| - 1])
  }

  lemma ExcludingSnoc(s: seq<Position>, x: Position, cells: set<Position>)
    ensures Excluding(s + [x], cells) == Excluding(s, cells) + (if x in cells then [] else [x])
  {
    assert (s + [x])[..|s|] == s;
  }

  /** A cell survives exactly when it was there and is not one of the removed cells. */
  lemma {:induction false} ExcludingMembership(s: seq<Position>, cells: set<Position>, q: Position)
    ensures q in Excluding(s, cells) <==> q in s && q !in cells
    decreases |s|
  {
    if s != [] {
      var n := |s| - 1;
      assert s == s[..n] + [s[n]];
      ExcludingMembership(s[..n], cells, q);
    }
  }

  /** All copies of a removed cell go; every other cell keeps its number of copies. */
  lemma {:induction false} ExcludingCount(s: seq<Position>, cells: set<Position>, q: Position)
    ensures multiset(Excluding(s, cells))[q] == if q in cells then 0 else multiset(s)[q]
    decreases |s|
  {
    if s != [] {
      var n := |s| - 1;
      assert s == s[..n] + [s[n]];
      ExcludingCount(s[..n], cells, q);
    }
  }

  /** Removing one cell sets its count to zero and leaves every other count alone. */
  lemma ExcludingOneMultiset(s: seq<Position>, p: Position)
    ensures multiset(Excluding(s, {p})) == multiset(s)[p := 0]
  {
    forall q
      ensures multiset(Excluding(s, {p}))[q] == multiset(s)[p := 0][q]
    {
      ExcludingCount(s, {p}, q);
    }
  }

  /** Removal never lengthens the sequence. */
  lemma {:induction false} ExcludingShorter(s: seq<Position>, cells: set<Position>)
    ensures |Excluding(s, cells)| <= |s|
    decreases |s|
  {
    if s != [] {
      ExcludingShorter(s[..|s| - 1], cells);
    }
  }

  /** The cells that are kept keep their relative order. */
  lemma {:induction false} ExcludingSubsequence(s: seq<Position>, cells: set<Position>)
    ensures IsSubsequence(Excluding(s, cells), s)
    decreases |s|
  {
    if s != [] {
      var n := |s| - 1;
      var e := Excluding(s[..n], cells);
      ExcludingSubsequence(s[..n], cells);
      if s[n] !in cells {
        assert Excluding(s, cells) == e + [s[n]];
        assert (e + [s[n]])[..|e|] == e;
      } else {
        assert Excluding(s, cells) == e;
        assert e != [] ==> IsSubsequence(e, s[..n]);
      }
    }
  }

  /** Removing cells that do not occur leaves the sequence as it is. */
  lemma {:induction false} ExcludingUntouched(s: seq<Position>, cells: set<Position>)
    requires forall q :: q in s ==> q !in cells
    ensures Excluding(s, cells) == s
    decreases |s|
  {
    if s != [] {
      var n := |s| - 1;
      assert s[n] in s;
      assert forall q :: q in s[..n] ==> q in s;
      ExcludingUntouched(s[..n], cells);
      assert s == s[..n] + [s[n]];
    }
  }

  /** Removing the same cells twice is the same as removing them once. */
  lemma {:induction false} ExcludingIdempotent(s: seq<Position>, cells: set<Position>)
    ensures Excluding(Excluding(s, cells), cells) == Excluding(s, cells)
  {
    forall q | q in Excluding(s, cells)
      ensures q !in cells
    {
      ExcludingMembership(s, cells, q);
    }
    ExcludingUntouched(Excluding(s, cells), cells);
  }

  /** Removing `a` and then `b` is removing both at once, in either order. */
  lemma {:induction false} ExcludingUnion(s: seq<Position>, a: set<Position>, b: set<Position>)
    ensures Excluding(Excluding(s, a), b) == Excluding(s, a + b)
    decreases |s|
  {
    if s != [] {
      var n := |s| - 1;
      ExcludingUnion(s[..n], a, b);
      var x := s[n];
      if x !in a {
        assert Excluding(s, a) == Excluding(s[..n], a) + [x];
        ExcludingSnoc(Excluding(s[..n], a), x, b);
      } else {
        assert Excluding(s, a) == Excluding(s[..n], a);
        assert Excluding(s, a + b) == Excluding(s[..n], a + b);
      }
    }
  }

  lemma {:induction false} ExcludingNoDup(s: seq<Position>, cells: set<Position>)
    requires NoDup(s)
    ensures NoDup(Excluding(s, cells))
    decreases |s|
  {
    if s != [] {
      var n := |s| - 1;
      assert NoDup(s[..n]);
      ExcludingNoDup(s[..n], cells);
      if s[n] !in cells {
        ExcludingMembership(s[..n], cells, s[n]);
        NoDupSnoc(Excluding(s[..n], cells), s[n]);
      }
    }
  }

  /** The cells the `pop` loop takes from the end of `c` when it may take up to `k`, in the order taken. */
  function PopOrder(c: seq<Position>, k: nat): (r: seq<Position>)
    ensures |r| == Min(k, |c|)
    ensures forall i :: 0 <= i < |r| ==> r[i] == c[|c| - 1 - i]
  {
    seq(Min(k, |c|), i requires 0 <= i < Min(k, |c|) => c[|c| - 1 - i])
  }

  /** Cells popped from a list without duplicates are pairwise distinct and come from that list. */
  lemma PopOrderDistinct(c: seq<Position>, k: nat)
    requires NoDup(c)
    ensures NoDup(PopOrder(c, k))
    ensures forall q :: q in PopOrder(c, k) ==> q in c
  {
    var r := PopOrder(c, k);
    forall i, j | 0 <= i < j < |r|
      ensures r[i] != r[j]
    {
      assert r[i] == c[|c| - 1 - i] && r[j] == c[|c| - 1 - j];
    }
  }

  /** Taking one more cell appends the next one from the end. */
  lemma PopOrderStep(c: seq<Position>, i: nat)
    requires i < |c|
    ensures PopOrder(c, i + 1) == PopOrder(c, i) + [c[|c| - 1 - i]]
  {
  }

  /** Once every cell is taken, asking for more takes nothing further. */
  lemma PopOrderSaturates(c: seq<Position>, k: nat)
    requires |c| <= k
    ensures PopOrder(c, k) == PopOrder(c, |c|)
  {
  }

  /** A list holds no duplicates when no cell occurs twice in its multiset. */
  lemma NoDupFromCounts(s: seq<Position>)
    requires forall q :: multiset(s)[q] <= 1
    ensures NoDup(s)
  {
    forall i, j | 0 <= i < j < |s|
      ensures s[i] != s[j]
    {
      if s[i] == s[j] {
        TwoOccurrences(s, i, j);
      }
    }
  }

  lemma CountSnoc(s: seq<Position>, x: Position, c: Position)
    ensures multiset(s + [x])[c] == multiset(s)[c] + (if x == c then 1 else 0)
  {
  }

  /** `k` copies of one cell, as pushed back by `k` despawned entities on that cell. */
  function Copies(p: Position, k: nat): (r: seq<Position>)
    ensures |r| == k && forall i :: 0 <= i < k ==> r[i] == p
  {
    if k == 0 then [] else Copies(p, k - 1) + [p]
  }

  /** One more copy adds one occurrence of `p`. */
  lemma CopiesSnoc(p: Position, k: nat, s: seq<Position>)
    ensures multiset(s + [p]) == multiset(s) + multiset{p}
    ensures multiset(Copies(p, k + 1)) == multiset(Copies(p, k)) + multiset{p}
  {
    assert Copies(p, k + 1) == Copies(p, k) + [p];
  }

  /** `SliceRandom::shuffle`: some permutation of `s`; the random source is not modelled. */
  method Permute(s: seq<Position>) returns (r: seq<Position>)
    ensures multiset(r) == multiset(s)
  {
    r :| multiset(r) == multiset(s);
  }

  // ---------------------------------------------------------------------------
  // The resource
  // ---------------------------------------------------------------------------

  class FreePositions {
    var positions: seq<Position>
    const width: int
    const height: int

    /** `FreePositions::new`: stores the dimensions and starts from the full grid in random order. */
    constructor (w: int, h: int)
      ensures width == w && height == h
      ensures multiset(positions) == multiset(Grid(w, h))
    {
      var ps := NewPositions(w, h);
      width, height := w, h;
      positions := ps;
    }

    /** The derived `clone`. */
    constructor Clone(other: FreePositions)
      ensures positions == other.positions
      ensures width == other.width && height == other.height
    {
      positions := other.positions;
      width, height := other.width, other.height;
    }

    /** `new_positions`: the nested loops push the grid column by column, then the vector is shuffled. */
    static method NewPositions(w: int, h: int) returns (ps: seq<Position>)
      ensures multiset(ps) == multiset(Grid(w, h))
    {
      var scan: seq<Position> := [];
      var x := 0;
      while x < w
        invariant 0 <= x && (x <= w || x == 0)
        invariant scan == Grid(x, h)
      {
        var y := 0;
        while y < h
          invariant 0 <= y && (y <= h || y == 0)
          invariant scan == Grid(x, h) + Column(x, y)
        {
          scan := scan + [Position(x, y)];
          y := y + 1;
        }
        x := x + 1;
      }
      ps := Permute(scan);
    }

    /** Only the order changes. */
    method Shuffle()
      modifies this
      ensures multiset(positions) == old(multiset(positions))
    {
      positions := Permute(positions);
    }

    /** `remove`: `retain` keeps, in order, every cell different from `p`. */
    method Remove(p: Position)
      modifies this
      ensures positions == Excluding(old(positions), {p})
    {
      var kept: seq<Position> := [];
      var i := 0;
      while i < |positions|
        invariant 0 <= i <= |positions|
        invariant kept == Excluding(positions[..i], {p})
      {
        assert positions[..i + 1][..i] == positions[..i];
        if positions[i] != p {
          kept := kept + [positions[i]];
        }
        i := i + 1;
      }
      assert positions[..i] == positions;
      positions := kept;
    }

    /** `remove_all`: `remove` for each cell of the batch in turn. */
    method RemoveAll(ps: seq<Position>)
      modifies this
      ensures positions == Excluding(old(positions), SetOf(ps))
    {
      ExcludingUntouched(positions, {});
      assert SetOf(ps[..0]) == {};
      for i := 0 to |ps|
        invariant positions == Excluding(old(positions), SetOf(ps[..i]))
      {
        Remove(ps[i]);
        ExcludingUnion(old(positions), SetOf(ps[..i]), {ps[i]});
        assert SetOf(ps[..i + 1]) == SetOf(ps[..i]) + {ps[i]};
      }
      assert ps[..|ps|] == ps;
    }

    /** `reset`: the full grid for the stored dimensions, in a fresh random order. */
    method Reset()
      modifies this
      ensures multiset(positions) == multiset(Grid(width, height))
    {
      positions := NewPositions(width, height);
    }

    /** `Vec::pop` on the `positions` field. */
    method Pop() returns (r: Option<Position>)
      modifies this
      ensures old(positions) == [] ==> r == None && positions == []
      ensures old(positions) != [] ==>
        r == Some(old(positions)[|old(positions)| - 1]) && positions == old(positions)[..|old(positions)| - 1]
    {
      if positions == [] {
        r := None;
      } else {
        r := Some(positions[|positions| - 1]);
        positions := positions[..|positions| - 1];
      }
    }
  }

  /**
   * The loop `for _ in 0..k { match candidates.positions.pop() { None => break, Some(pos) => ... } }`:
   * takes up to `k` cells from the end of the candidates.
   */
  method PopUpTo(candidates: FreePositions, k: nat) returns (taken: seq<Position>)
    modifies candidates
    ensures taken == PopOrder(old(candidates.positions), k)
    ensures candidates.positions == old(candidates.positions)[..|old(candidates.positions)| - |taken|]
  {
    ghost var c0 := candidates.positions;
    taken := [];
    var i := 0;
    while i < k
      invariant 0 <= i <= k && i <= |c0|
      invariant taken == PopOrder(c0, i)
      invariant candidates.positions == c0[..|c0| - i]
    {
      var r := candidates.Pop();
      match r {
        case None =>
          assert PopOrder(c0, k) == PopOrder(c0, i);
          return;
        case Some(pos) =>
          taken := taken + [pos];
      }
      i := i + 1;
    }
  }

  /** The loop `while let Some(position) = positions.pop() { free_positions.remove(&position); }`. */
  method RemovePopped(pool: FreePositions, cells: seq<Position>)
    modifies pool
    ensures pool.positions == Excluding(old(pool.positions), SetOf(cells))
  {
    var rest := cells;
    ExcludingUntouched(pool.positions, {});
    assert SetOf(cells[|rest|..]) == {};
    while rest != []
      invariant rest == cells[..|rest|]
      invariant pool.positions == Excluding(old(pool.positions), SetOf(cells[|rest|..]))
      decreases |rest|
    {
      var p := rest[|rest| - 1];
      ghost var done := SetOf(cells[|rest|..]);
      rest := rest[..|rest| - 1];
      pool.Remove(p);
      ExcludingUnion(old(pool.positions), done, {p});
      assert cells[|rest|..] == [p] + cells[|rest| + 1..];
      assert SetOf(cells[|rest|..]) == done + {p};
    }
  }
}

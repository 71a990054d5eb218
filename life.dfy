/**
 * The pure part of the Game of Life engine: the liveness matrix, the
 * bounded (non-wrapping) neighbour count, the B3/S23 transition rule and
 * the generation step, with the properties the engine relies on.
 */
module Life {

  /** A liveness matrix, indexed `g[row][column]`; `true` is a live cell. */
  type Grid = seq<seq<bool>>

  /** `g` has exactly `height` rows, each of exactly `width` cells. */
  predicate Shaped(g: Grid, height: nat, width: nat)
  {
    |g| == height && forall i :: 0 <= i < |g| ==> |g[i]| == width
  }

  /** The grid of the given shape with every cell dead. */
  function DeadGrid(height: nat, width: nat): (g: Grid)
    ensures Shaped(g, height, width)
    ensures AllDead(g)
  {
    seq(height, _ => seq(width, _ => false))
  }

  /** No cell of `g` is alive. */
  predicate AllDead(g: Grid)
  {
    forall i, j :: 0 <= i < |g| && 0 <= j < |g[i]| ==> !g[i][j]
  }

  /**
   * Whether position (r, c) holds a live cell. A position outside the
   * matrix holds no cell and so is never alive: this is the per-neighbour
   * bounds check, with no wrap-around.
   */
  predicate Alive(g: Grid, r: int, c: int)
  {
    0 <= r < |g| && 0 <= c < |g[r]| && g[r][c]
  }

  /** The eight neighbour offsets, in the order the engine inspects them. */
  const Offsets: seq<(int, int)> :=
    [(-1, -1), (-1, 0), (-1, 1), (0, -1), (0, 1), (1, -1), (1, 0), (1, 1)]

  /** The number of offsets `o` in `offs` for which (r + o.0, c + o.1) is alive. */
  function CountOver(g: Grid, r: int, c: int, offs: seq<(int, int)>): (n: nat)
    ensures n <= |offs|
  {
    if offs == [] then 0
    else (if Alive(g, r + offs[0].0, c + offs[0].1) then 1 else 0) + CountOver(g, r, c, offs[1..])
  }

  /** The number of live cells among the (up to eight) neighbours of (r, c). */
  function CountNeighbours(g: Grid, r: int, c: int): (n: nat)
    ensures n <= 8
  {
    CountOver(g, r, c, Offsets)
  }

  /** Conway's B3/S23 rule: the next state of a cell from its state and live-neighbour count. */
  predicate NextState(alive: bool, liveNeighbours: int): (live: bool)
    ensures liveNeighbours == 3 ==> live
    ensures liveNeighbours < 2 || liveNeighbours > 3 ==> !live
    ensures liveNeighbours == 2 ==> (live <==> alive)
  {
    if alive then liveNeighbours == 2 || liveNeighbours == 3 else liveNeighbours == 3
  }

  /** The next generation: every cell's next state computed from the pre-step grid `g` alone. */
  function Step(g: Grid): (next: Grid)
    ensures |next| == |g|
    ensures forall i :: 0 <= i < |g| ==> |next[i]| == |g[i]|
  {
    seq(|g|, i requires 0 <= i < |g| =>
      seq(|g[i]|, j requires 0 <= j < |g[i]| => NextState(g[i][j], CountNeighbours(g, i, j))))
  }

  /** `k` generation steps from `g`. */
  function StepN(g: Grid, k: nat): (last: Grid)
    ensures |last| == |g|
    ensures forall i :: 0 <= i < |g| ==> |last[i]| == |g[i]|
    decreases k
  {
    if k == 0 then g else StepN(Step(g), k - 1)
  }

  function Bit(b: bool): nat
  {
    if b then 1 else 0
  }

  /** The count written out offset by offset, in the engine's order. */
  lemma CountNeighboursUnrolled(g: Grid, r: int, c: int)
    ensures CountNeighbours(g, r, c)
         == Bit(Alive(g, r - 1, c - 1)) + Bit(Alive(g, r - 1, c)) + Bit(Alive(g, r - 1, c + 1))
          + Bit(Alive(g, r, c - 1)) + Bit(Alive(g, r, c + 1))
          + Bit(Alive(g, r + 1, c - 1)) + Bit(Alive(g, r + 1, c)) + Bit(Alive(g, r + 1, c + 1))
  {
    var o := Offsets;
    assert CountOver(g, r, c, o[7..]) == Bit(Alive(g, r + 1, c + 1));
    assert CountOver(g, r, c, o[6..]) == Bit(Alive(g, r + 1, c)) + CountOver(g, r, c, o[7..]);
    assert CountOver(g, r, c, o[5..]) == Bit(Alive(g, r + 1, c - 1)) + CountOver(g, r, c, o[6..]);
    assert CountOver(g, r, c, o[4..]) == Bit(Alive(g, r, c + 1)) + CountOver(g, r, c, o[5..]);
    assert CountOver(g, r, c, o[3..]) == Bit(Alive(g, r, c - 1)) + CountOver(g, r, c, o[4..]);
    assert CountOver(g, r, c, o[2..]) == Bit(Alive(g, r - 1, c + 1)) + CountOver(g, r, c, o[3..]);
    assert CountOver(g, r, c, o[1..]) == Bit(Alive(g, r - 1, c)) + CountOver(g, r, c, o[2..]);
  }

  // ---------------------------------------------------------------------
  // The neighbour count against an independent, set-based definition

  /** Positions (i, j) adjacent to (r, c): within one row and one column, and not (r, c) itself. */
  predicate Adjacent(i: int, j: int, r: int, c: int)
  {
    r - 1 <= i <= r + 1 && c - 1 <= j <= c + 1 && (i, j) != (r, c)
  }

  /** The live cells adjacent to (r, c). */
  function LiveNeighbours(g: Grid, r: int, c: int): set<(int, int)>
  {
    set i, j | r - 1 <= i <= r + 1 && c - 1 <= j <= c + 1 && Adjacent(i, j, r, c) && Alive(g, i, j) :: (i, j)
  }

  /** The positions (r + o.0, c + o.1), o in `offs`, that hold a live cell. */
  function LiveAt(g: Grid, r: int, c: int, offs: seq<(int, int)>): set<(int, int)>
  {
    set o | o in offs && Alive(g, r + o.0, c + o.1) :: (r + o.0, c + o.1)
  }

  /** `s` lists no element twice. */
  predicate NoDup<T(==)>(s: seq<T>)
  {
    forall a, b :: 0 <= a < b < |s| ==> s[a] != s[b]
  }

  lemma LiveAtCons(g: Grid, r: int, c: int, offs: seq<(int, int)>)
    requires offs != []
    ensures LiveAt(g, r, c, offs)
         == (if Alive(g, r + offs[0].0, c + offs[0].1) then {(r + offs[0].0, c + offs[0].1)} else {})
            + LiveAt(g, r, c, offs[1..])
  {
  }

  lemma LiveAtExcludesHead(g: Grid, r: int, c: int, offs: seq<(int, int)>)
    requires offs != [] && NoDup(offs)
    ensures (r + offs[0].0, c + offs[0].1) !in LiveAt(g, r, c, offs[1..])
  {
  }

  lemma {:induction false} CountOverIsCardinality(g: Grid, r: int, c: int, offs: seq<(int, int)>)
    requires NoDup(offs)
    ensures CountOver(g, r, c, offs) == |LiveAt(g, r, c, offs)|
  {
    if offs != [] {
      assert NoDup(offs[1..]);
      CountOverIsCardinality(g, r, c, offs[1..]);
      LiveAtCons(g, r, c, offs);
      LiveAtExcludesHead(g, r, c, offs);
    }
  }

  lemma LiveAtOffsets(g: Grid, r: int, c: int)
    ensures LiveAt(g, r, c, Offsets) == LiveNeighbours(g, r, c)
  {
  }

  /**
   * The engine's count is the number of live cells among the positions
   * adjacent to (r, c): the centre is never counted, and neither is any
   * position off the grid.
   */
  lemma CountNeighboursIsLiveNeighbours(g: Grid, r: int, c: int)
    ensures CountNeighbours(g, r, c) == |LiveNeighbours(g, r, c)|
    ensures forall i, j :: (i, j) in LiveNeighbours(g, r, c) <==> Adjacent(i, j, r, c) && Alive(g, i, j)
  {
    CountOverIsCardinality(g, r, c, Offsets);
    LiveAtOffsets(g, r, c);
  }

  /** The count is never more than eight. */
  lemma CountNeighboursBound(g: Grid, r: int, c: int)
    ensures 0 <= CountNeighbours(g, r, c) <= 8
  {
  }

  /** The count is at most the size of any set holding every live adjacent position. */
  lemma CountBoundedBy(g: Grid, r: int, c: int, near: set<(int, int)>)
    requires forall i, j :: Adjacent(i, j, r, c) && Alive(g, i, j) ==> (i, j) in near
    ensures CountNeighbours(g, r, c) <= |near|
  {
    CountNeighboursIsLiveNeighbours(g, r, c);
    SubsetCardinality(LiveNeighbours(g, r, c), near);
  }

  /** A corner cell has at most three neighbours to count. */
  lemma CornerCountBound(g: Grid, height: nat, width: nat, r: int, c: int)
    requires Shaped(g, height, width)
    requires r == 0 || r == height - 1
    requires c == 0 || c == width - 1
    requires 0 <= r < height && 0 <= c < width
    ensures CountNeighbours(g, r, c) <= 3
  {
    var dr := if r == 0 then 1 else -1;
    var dc := if c == 0 then 1 else -1;
    var near := {(r + dr, c), (r, c + dc), (r + dr, c + dc)};
    assert |near| <= 3;
    CountBoundedBy(g, r, c, near);
  }

  /** A cell on an edge of the grid has at most five neighbours to count. */
  lemma EdgeCountBound(g: Grid, height: nat, width: nat, r: int, c: int)
    requires Shaped(g, height, width)
    requires r == 0 || r == height - 1 || c == 0 || c == width - 1
    requires 0 <= r < height && 0 <= c < width
    ensures CountNeighbours(g, r, c) <= 5
  {
    if r == 0 || r == height - 1 {
      var dr := if r == 0 then 1 else -1;
      var near := {(r, c - 1), (r, c + 1), (r + dr, c - 1), (r + dr, c), (r + dr, c + 1)};
      assert |near| <= 5;
      CountBoundedBy(g, r, c, near);
    } else {
      var dc := if c == 0 then 1 else -1;
      var near := {(r - 1, c), (r + 1, c), (r - 1, c + dc), (r, c + dc), (r + 1, c + dc)};
      assert |near| <= 5;
      CountBoundedBy(g, r, c, near);
    }
  }

  lemma SubsetCardinality<T>(a: set<T>, b: set<T>)
    requires a <= b
    ensures |a| <= |b|
  {
    assert b == a + (b - a);
  }

  // ---------------------------------------------------------------------
  // The transition rule, cell by cell

  /** A live cell survives exactly when it has two or three live neighbours. */
  lemma StepSurvival(g: Grid, i: nat, j: nat)
    requires i < |g| && j < |g[i]| && g[i][j]
    ensures Step(g)[i][j] <==> CountNeighbours(g, i, j) == 2 || CountNeighbours(g, i, j) == 3
  {
  }

  /** A dead cell comes alive exactly when it has three live neighbours. */
  lemma StepBirth(g: Grid, i: nat, j: nat)
    requires i < |g| && j < |g[i]| && !g[i][j]
    ensures Step(g)[i][j] <==> CountNeighbours(g, i, j) == 3
  {
  }

  /** A step keeps the grid's dimensions. */
  lemma StepShape(g: Grid, height: nat, width: nat)
    requires Shaped(g, height, width)
    ensures Shaped(Step(g), height, width)
  {
  }

  /**
   * A cell's next state depends only on the pre-step states in its 3x3
   * neighbourhood, so it does not matter in which order the cells of a
   * generation are computed.
   */
  lemma StepIsLocal(g: Grid, h: Grid, height: nat, width: nat, i: nat, j: nat)
    requires Shaped(g, height, width) && Shaped(h, height, width)
    requires i < height && j < width
    requires forall a, b :: i - 1 <= a <= i + 1 && j - 1 <= b <= j + 1 ==> Alive(g, a, b) == Alive(h, a, b)
    ensures Step(g)[i][j] == Step(h)[i][j]
  {
    forall k | 0 <= k < |Offsets|
      ensures Alive(g, i + Offsets[k].0, j + Offsets[k].1) == Alive(h, i + Offsets[k].0, j + Offsets[k].1)
    {
      assert -1 <= Offsets[k].0 <= 1 && -1 <= Offsets[k].1 <= 1;
    }
    CountOverLocal(g, h, i, j, Offsets);
    assert Alive(g, i, j) == Alive(h, i, j);
  }

  lemma {:induction false} CountOverLocal(g: Grid, h: Grid, r: int, c: int, offs: seq<(int, int)>)
    requires forall k :: 0 <= k < |offs| ==> Alive(g, r + offs[k].0, c + offs[k].1) == Alive(h, r + offs[k].0, c + offs[k].1)
    ensures CountOver(g, r, c, offs) == CountOver(h, r, c, offs)
  {
    if offs != [] {
      var tail := offs[1..];
      forall k | 0 <= k < |tail|
        ensures Alive(g, r + tail[k].0, c + tail[k].1) == Alive(h, r + tail[k].0, c + tail[k].1)
      {
        assert tail[k] == offs[k + 1];
      }
      CountOverLocal(g, h, r, c, tail);
    }
  }

  // ---------------------------------------------------------------------
  // Whole-grid behaviour

  lemma {:induction false} CountOverAllDead(g: Grid, r: int, c: int, offs: seq<(int, int)>)
    requires AllDead(g)
    ensures CountOver(g, r, c, offs) == 0
  {
    if offs != [] {
      CountOverAllDead(g, r, c, offs[1..]);
    }
  }

  /** The all-dead grid is a fixed point of the step. */
  lemma AllDeadIsFixedPoint(g: Grid)
    requires AllDead(g)
    ensures Step(g) == g
  {
    forall i | 0 <= i < |g| ensures Step(g)[i] == g[i] {
      forall j | 0 <= j < |g[i]| ensures Step(g)[i][j] == g[i][j] {
        CountOverAllDead(g, i, j, Offsets);
      }
    }
  }

  /** An all-dead grid stays all-dead for any number of steps. */
  lemma {:induction false} AllDeadForever(g: Grid, k: nat)
    requires AllDead(g)
    ensures StepN(g, k) == g
  {
    if k > 0 {
      AllDeadIsFixedPoint(g);
      AllDeadForever(g, k - 1);
    }
  }

  /** A grid with a single live cell dies out in one step. */
  lemma LoneCellDies(g: Grid, r: nat, c: nat)
    requires r < |g| && c < |g[r]| && g[r][c]
    requires forall i, j :: 0 <= i < |g| && 0 <= j < |g[i]| && g[i][j] ==> i == r && j == c
    ensures AllDead(Step(g))
  {
    forall i, j | 0 <= i < |g| && 0 <= j < |g[i]| ensures !Step(g)[i][j] {
      CountNeighboursIsLiveNeighbours(g, i, j);
      assert LiveNeighbours(g, i, j) <= {(r, c)};
      SubsetCardinality(LiveNeighbours(g, i, j), {(r, c)});
      if i == r && j == c {
        assert LiveNeighbours(g, i, j) == {};
      }
    }
  }

  /** The blinker: a horizontal bar of three in a 3x3 grid turns vertical. */
  lemma Blinker(g: Grid)
    requires g == [[false, false, false], [true, true, true], [false, false, false]]
    ensures Step(g) == [[false, true, false], [false, true, false], [false, true, false]]
  {
    var want := [[false, true, false], [false, true, false], [false, true, false]];
    forall i, j | 0 <= i < 3 && 0 <= j < 3 ensures Step(g)[i][j] == want[i][j] {
      CountNeighboursUnrolled(g, i, j);
    }
    assert Step(g)[0] == want[0] && Step(g)[1] == want[1] && Step(g)[2] == want[2];
  }
}

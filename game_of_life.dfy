/**
 * The `GameOfLife` engine object: it owns the liveness matrix `cellStates`
 * of a fixed `height x width` grid, seeds it once and advances it one
 * generation per `Update`.
 */
module Engine {
  import opened Life
  import opened Seeding

  class GameOfLife {
    const height: nat
    const width: nat
    const startingAlive: int
    /** The current generation; empty until `Create` lays out the grid. */
    var cellStates: Grid

    /** The matrix has been laid out: `height` rows of `width` cells. */
    ghost predicate Valid()
      reads this
    {
      Shaped(cellStates, height, width)
    }

    constructor (height: nat, width: nat, startingAlive: int)
      ensures this.height == height && this.width == width && this.startingAlive == startingAlive
      ensures cellStates == []
    {
      this.height := height;
      this.width := width;
      this.startingAlive := startingAlive;
      cellStates := [];
    }

    /** Lays out the grid: appends `height` rows of `width` dead cells. */
    method Create()
      modifies this
      ensures cellStates == old(cellStates) + DeadGrid(height, width)
    {
      for i := 0 to height
        invariant cellStates == old(cellStates) + DeadGrid(i, width)
      {
        var rowState: seq<bool> := [];
        for j := 0 to width
          invariant rowState == seq(j, _ => false)
        {
          rowState := rowState + [false];
        }
        cellStates := cellStates + [rowState];
      }
    }

    /**
     * Draws start points from `candidates`, in order, keeping each one not
     * already kept, until `noOfPoints` are kept. Each candidate stands for
     * one random (row, column) draw, so each lies in the grid; the draws
     * must hold enough distinct points for the loop to finish.
     */
    method RandomStartPoints(noOfPoints: int, candidates: seq<Coord>) returns (startPoints: seq<Coord>)
      requires AllInBounds(height, width, candidates)
      requires noOfPoints <= |Dedup(candidates)|
      ensures |startPoints| == if noOfPoints < 0 then 0 else noOfPoints
      ensures NoDup(startPoints) && AllInBounds(height, width, startPoints)
      ensures exists k :: 0 <= k <= |candidates| && startPoints == Dedup(candidates[..k])
    {
      startPoints := [];
      var next := 0;
      assert candidates[..0] == [];
      while |startPoints| < noOfPoints
        invariant 0 <= next <= |candidates|
        invariant startPoints == Dedup(candidates[..next])
        invariant next == |candidates| ==> startPoints == Dedup(candidates)
        invariant |startPoints| <= if noOfPoints < 0 then 0 else noOfPoints
        decreases |candidates| - next
      {
        var point := candidates[next];
        assert candidates[..next + 1] == candidates[..next] + [point];
        next := next + 1;
        if point !in startPoints {
          startPoints := startPoints + [point];
        }
      }
      forall k | 0 <= k < |startPoints| ensures InBounds(height, width, startPoints[k]) {
        assert startPoints[k] in candidates[..next];
      }
      assert 0 <= next <= |candidates| && startPoints == Dedup(candidates[..next]);
    }

    /** Counts the live cells among the up to eight in-grid neighbours of (row, column). */
    method GetActiveNeighbours(row: int, column: int) returns (activeNeighbours: nat)
      requires Valid()
      requires 0 <= row < height && 0 <= column < width
      ensures activeNeighbours == CountNeighbours(cellStates, row, column)
      ensures activeNeighbours <= 8
    {
      CountNeighboursUnrolled(cellStates, row, column);
      assert row - 1 >= 0 ==> |cellStates[row - 1]| == width;
      assert |cellStates[row]| == width;
      assert row + 1 < height ==> |cellStates[row + 1]| == width;
      activeNeighbours := 0;
      if row - 1 >= 0 && column - 1 >= 0 {
        if cellStates[row - 1][column - 1] { activeNeighbours := activeNeighbours + 1; }
      }
      if row - 1 >= 0 {
        if cellStates[row - 1][column] { activeNeighbours := activeNeighbours + 1; }
      }
      if row - 1 >= 0 && column + 1 < width {
        if cellStates[row - 1][column + 1] { activeNeighbours := activeNeighbours + 1; }
      }
      if column - 1 >= 0 {
        if cellStates[row][column - 1] { activeNeighbours := activeNeighbours + 1; }
      }
      if column + 1 < width {
        if cellStates[row][column + 1] { activeNeighbours := activeNeighbours + 1; }
      }
      if row + 1 < height && column - 1 >= 0 {
        if cellStates[row + 1][column - 1] { activeNeighbours := activeNeighbours + 1; }
      }
      if row + 1 < height {
        if cellStates[row + 1][column] { activeNeighbours := activeNeighbours + 1; }
      }
      if row + 1 < height && column + 1 < width {
        if cellStates[row + 1][column + 1] { activeNeighbours := activeNeighbours + 1; }
      }
    }

    /**
     * Advances one generation: builds a fresh all-dead matrix, sets in it
     * each cell that the B3/S23 rule makes alive, judging every cell by the
     * pre-step matrix only, and then replaces the rows of `cellStates`.
     */
    method Update()
      requires Valid()
      modifies this
      ensures Valid()
      ensures cellStates == Step(old(cellStates))
    {
      var newCellStates: Grid := [];
      for i := 0 to height
        invariant newCellStates == DeadGrid(i, width)
      {
        var row: seq<bool> := [];
        for j := 0 to width
          invariant row == seq(j, _ => false)
        {
          row := row + [false];
        }
        newCellStates := newCellStates + [row];
      }
      for i := 0 to height
        invariant cellStates == old(cellStates)
        invariant |newCellStates| == height
        invariant forall a :: 0 <= a < i ==> newCellStates[a] == Step(cellStates)[a]
        invariant forall a :: i <= a < height ==> newCellStates[a] == DeadGrid(height, width)[a]
      {
        newCellStates := UpdateRow(i, newCellStates);
      }
      cellStates := [];
      for k := 0 to |newCellStates|
        invariant cellStates == newCellStates[..k]
      {
        cellStates := cellStates + [newCellStates[k]];
      }
      assert newCellStates[..|newCellStates|] == newCellStates;
    }

    /**
     * One pass of the outer scan of `Update`: sets in row `i` of the fresh
     * matrix every cell that the B3/S23 rule makes alive, reading only the
     * current generation.
     */
    method UpdateRow(i: nat, newCellStates: Grid) returns (updated: Grid)
      requires Valid() && i < height
      requires |newCellStates| == height && newCellStates[i] == DeadGrid(height, width)[i]
      ensures updated == newCellStates[i := Step(cellStates)[i]]
    {
      updated := newCellStates;
      ghost var next := Step(cellStates)[i];
      for j := 0 to width
        invariant |updated| == height && |updated[i]| == width
        invariant updated == newCellStates[i := updated[i]]
        invariant forall b :: 0 <= b < j ==> updated[i][b] == next[b]
        invariant forall b :: j <= b < width ==> !updated[i][b]
      {
        var activeNeighbours := GetActiveNeighbours(i, j);
        assert next[j] == NextState(cellStates[i][j], activeNeighbours);
        if cellStates[i][j] {
          if activeNeighbours == 2 || activeNeighbours == 3 {
            updated := updated[i := updated[i][j := true]];
          }
        } else if activeNeighbours == 3 {
          updated := updated[i := updated[i][j := true]];
        }
      }
      assert updated[i] == next;
    }

    /**
     * Lays out the grid, draws `startingAlive` distinct start points and
     * makes exactly those cells alive. Returns, as a ghost, the points drawn.
     */
    method Init(candidates: seq<Coord>) returns (ghost startPoints: seq<Coord>)
      requires cellStates == []
      requires AllInBounds(height, width, candidates)
      requires startingAlive <= |Dedup(candidates)|
      modifies this
      ensures Valid()
      ensures |startPoints| == if startingAlive < 0 then 0 else startingAlive
      ensures NoDup(startPoints) && AllInBounds(height, width, startPoints)
      ensures exists k :: 0 <= k <= |candidates| && startPoints == Dedup(candidates[..k])
      ensures cellStates == Seeded(height, width, startPoints)
    {
      Create();
      var points := RandomStartPoints(startingAlive, candidates);
      SeededNone(height, width);
      assert cellStates == DeadGrid(height, width);
      TakeAll(points);
      for k := 0 to |points|
        invariant cellStates == Seeded(height, width, points[..k])
      {
        var point := points[k];
        TakeNext(points, k);
        SeededAdd(height, width, points[..k], point);
        cellStates := cellStates[point.0 := cellStates[point.0][point.1 := true]];
      }
      startPoints := points;
    }
  }
}

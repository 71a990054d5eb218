/**
 * Random seeding by rejection sampling. The random source is a sequence of
 * candidate coordinates drawn in order; a candidate is kept only if it was
 * not kept before, and drawing stops once enough points are kept.
 */
module Seeding {
  import opened Life

  /** A (row, column) pair. */
  type Coord = (int, int)

  /** `p` lies in `[0, height) x [0, width)`. */
  predicate InBounds(height: nat, width: nat, p: Coord)
  {
    0 <= p.0 < height && 0 <= p.1 < width
  }

  /** Every coordinate of `s` lies in the grid. */
  predicate AllInBounds(height: nat, width: nat, s: seq<Coord>)
  {
    forall k :: 0 <= k < |s| ==> InBounds(height, width, s[k])
  }

  /**
   * The points that rejection sampling keeps from the draws `s`, in the
   * order they were first drawn: a draw is kept only if it is not already
   * among the kept points.
   */
  function Dedup(s: seq<Coord>): (d: seq<Coord>)
    ensures NoDup(d)
    ensures forall p :: p in d <==> p in s
    ensures |d| <= |s|
  {
    if s == [] then []
    else
      var kept := Dedup(s[..|s| - 1]);
      var last := s[|s| - 1];
      assert forall p :: p in s <==> p in s[..|s| - 1] || p == last by {
        assert s == s[..|s| - 1] + [last];
      }
      if last in kept then kept else kept + [last]
  }

  /** The grid of the given shape whose live cells are exactly `points`. */
  function Seeded(height: nat, width: nat, points: seq<Coord>): (g: Grid)
    ensures Shaped(g, height, width)
    ensures forall i, j :: 0 <= i < height && 0 <= j < width ==> (g[i][j] <==> (i, j) in points)
  {
    seq(height, i => seq(width, j => (i, j) in points))
  }

  /** Seeding no points leaves the grid all dead. */
  lemma SeededNone(height: nat, width: nat)
    ensures Seeded(height, width, []) == DeadGrid(height, width)
  {
    forall i | 0 <= i < height ensures Seeded(height, width, [])[i] == DeadGrid(height, width)[i] {
    }
  }

  /** Seeding one more point `p` makes exactly the cell at `p` alive as well. */
  lemma SeededAdd(height: nat, width: nat, points: seq<Coord>, p: Coord)
    requires InBounds(height, width, p)
    ensures Seeded(height, width, points + [p])
         == Seeded(height, width, points)[p.0 := Seeded(height, width, points)[p.0][p.1 := true]]
  {
    var before := Seeded(height, width, points);
    var after := before[p.0 := before[p.0][p.1 := true]];
    forall i | 0 <= i < height ensures Seeded(height, width, points + [p])[i] == after[i] {
    }
  }

  lemma TakeNext<T>(s: seq<T>, k: nat)
    requires k < |s|
    ensures s[..k + 1] == s[..k] + [s[k]]
  {
  }

  lemma TakeAll<T>(s: seq<T>)
    ensures s[..|s|] == s && s[..0] == []
  {
  }

  /** Every cell of a `height x width` grid. */
  function AllCells(height: nat, width: nat): set<Coord>
  {
    set i, j | 0 <= i < height && 0 <= j < width :: (i, j)
  }

  /** The cells of row `r` in columns `[0, width)`. */
  function RowCells(r: int, width: nat): set<Coord>
  {
    set j | 0 <= j < width :: (r, j)
  }

  lemma {:induction false} RowCellsCardinality(r: int, width: nat)
    ensures |RowCells(r, width)| == width
  {
    if width > 0 {
      RowCellsCardinality(r, width - 1);
      assert RowCells(r, width) == RowCells(r, width - 1) + {(r, width - 1)};
    }
  }

  /** A `height x width` grid has `height * width` cells. */
  lemma {:induction false} AllCellsCardinality(height: nat, width: nat)
    ensures |AllCells(height, width)| == height * width
  {
    if height > 0 {
      AllCellsCardinality(height - 1, width);
      RowCellsCardinality(height - 1, width);
      AllCellsSplit(height - 1, width);
      assert height * width == (height - 1) * width + width;
    }
  }

  lemma AllCellsSplit(h: nat, width: nat)
    ensures AllCells(h + 1, width) == AllCells(h, width) + RowCells(h, width)
    ensures AllCells(h, width) !! RowCells(h, width)
  {
  }

  /** A sequence without repetitions has as many distinct elements as it is long. */
  lemma {:induction false} NoDupCardinality(s: seq<Coord>)
    requires NoDup(s)
    ensures |set p | p in s| == |s|
  {
    if s != [] {
      var init := s[..|s| - 1];
      assert NoDup(init);
      NoDupCardinality(init);
      assert (set p | p in s) == (set p | p in init) + {s[|s| - 1]} by {
        assert s == init + [s[|s| - 1]];
      }
      assert s[|s| - 1] !in init by {
        forall k | 0 <= k < |init| ensures init[k] != s[|s| - 1] {
          assert init[k] == s[k];
        }
      }
    }
  }

  /** No more distinct points than cells can be drawn inside the grid. */
  lemma DistinctPointsBound(height: nat, width: nat, s: seq<Coord>)
    requires NoDup(s) && AllInBounds(height, width, s)
    ensures |s| <= height * width
  {
    var kept := set p | p in s;
    NoDupCardinality(s);
    AllCellsCardinality(height, width);
    SubsetCardinality(kept, AllCells(height, width));
  }

  /**
   * However many in-bounds draws are made, rejection sampling keeps at most
   * `height * width` points, so asking for more never finishes.
   */
  lemma SeedingNeedsRoom(height: nat, width: nat, candidates: seq<Coord>)
    requires AllInBounds(height, width, candidates)
    ensures |Dedup(candidates)| <= height * width
  {
    var d := Dedup(candidates);
    forall k | 0 <= k < |d| ensures InBounds(height, width, d[k]) {
      assert d[k] in candidates;
    }
    DistinctPointsBound(height, width, d);
  }

  /** Distinct in-bounds points as many as there are cells cover the whole grid. */
  lemma FullSeedingCoversGrid(height: nat, width: nat, points: seq<Coord>)
    requires NoDup(points) && AllInBounds(height, width, points)
    requires |points| == height * width
    ensures forall i, j :: 0 <= i < height && 0 <= j < width ==> (i, j) in points
  {
    var kept := set p | p in points;
    NoDupCardinality(points);
    AllCellsCardinality(height, width);
    assert kept <= AllCells(height, width);
    var all := AllCells(height, width);
    assert all == kept + (all - kept);
    assert kept !! (all - kept);
    assert |all - kept| == 0;
    forall i, j | 0 <= i < height && 0 <= j < width ensures (i, j) in points {
      assert (i, j) in AllCells(height, width);
    }
  }

  /** Seeding as many distinct points as there are cells leaves every cell alive. */
  lemma FullSeedingAllAlive(height: nat, width: nat, points: seq<Coord>)
    requires NoDup(points) && AllInBounds(height, width, points)
    requires |points| == height * width
    ensures forall i, j :: 0 <= i < height && 0 <= j < width ==> Seeded(height, width, points)[i][j]
  {
    FullSeedingCoversGrid(height, width, points);
  }
}

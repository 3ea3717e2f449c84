/**
 * The codeword placement of `map_data`: the zig-zag order in which it visits
 * the cells, and what visiting a cell does to the grid and the bit index.
 */
module Placement {
  import opened Bits
  import opened Grid

  /** Row number `t` of a sweep: bottom to top when `up`, top to bottom otherwise. */
  function SweepRow(size: int, up: bool, t: int): int {
    if up then size - 1 - t else t
  }

  /** Whether row `r` is among the first `t` rows of a sweep. */
  predicate RowSwept(size: int, up: bool, t: int, r: int) {
    if up then size - t <= r < size else 0 <= r < t
  }

  /** The cells of the first `t` rows of the sweep over columns (col, col - 1), the right one first in each row. */
  function PairCells(size: int, col: int, up: bool, t: nat): (cells: seq<Coord>)
    ensures |cells| == 2 * t
  {
    if t == 0 then []
    else
      var r := SweepRow(size, up, t - 1);
      PairCells(size, col, up, t - 1) + [(r, col), (r, col - 1)]
  }

  /**
   * The order in which `map_data` visits cells from column `col` on: a
   * column pair per sweep, the sweep direction flipping after each pair;
   * column 6 is stepped over to 5 without a flip.
   */
  function Walk(size: nat, col: int, up: bool): seq<Coord>
    decreases col
  {
    if col <= 0 then []
    else if col == 6 then Walk(size, col - 1, up)
    else PairCells(size, col, up, size) + Walk(size, col - 2, !up)
  }

  /** The whole visiting order of `map_data` on a size x size grid. */
  function MapOrder(size: nat): seq<Coord> {
    Walk(size, size - 1, true)
  }

  /** One column pair of the walk, after the cells visited so far. */
  lemma WalkStep(size: nat, col: int, up: bool, done: seq<Coord>)
    requires col > 0 && col != 6
    ensures done + Walk(size, col, up) == (done + PairCells(size, col, up, size)) + Walk(size, col - 2, !up)
  {
  }

  /** One more row of a sweep: its right cell, then its left cell. */
  lemma PairStep(size: int, col: int, up: bool, t: nat, done: seq<Coord>)
    ensures var r := SweepRow(size, up, t);
      done + PairCells(size, col, up, t + 1) == done + PairCells(size, col, up, t) + [(r, col)] + [(r, col - 1)]
  {
  }

  /** Column 6 is stepped over without a flip. */
  lemma WalkSkipSix(size: nat, up: bool)
    ensures Walk(size, 6, up) == Walk(size, 5, up)
  {
  }

  /** The grid and the bit index `bit_idx` of `map_data`. */
  datatype FillState = FillState(grid: Grid, bitIdx: nat)

  /**
   * One visit of `map_data`'s inner loop: an unset cell receives the next bit,
   * or 0 once the bits are used up; any other cell is left alone.
   */
  function Visit(st: FillState, bits: string, cell: Coord): FillState {
    var (r, c) := cell;
    if 0 <= r < |st.grid| && 0 <= c < |st.grid[r]| && st.grid[r][c] == UNSET then
      if st.bitIdx < |bits| then FillState(Set(st.grid, r, c, DigitValue(bits[st.bitIdx])), st.bitIdx + 1)
      else FillState(Set(st.grid, r, c, 0), st.bitIdx)
    else st
  }

  /** The state after visiting `cells` in order, starting at bit 0. */
  function Fill(g: Grid, bits: string, cells: seq<Coord>): (st: FillState)
    ensures |st.grid| == |g| && forall i :: 0 <= i < |g| ==> |st.grid[i]| == |g[i]|
  {
    if |cells| == 0 then FillState(g, 0)
    else Visit(Fill(g, bits, cells[..|cells| - 1]), bits, cells[|cells| - 1])
  }

  /** Visiting one more cell. */
  lemma FillSnoc(g: Grid, bits: string, cells: seq<Coord>, x: Coord)
    ensures Fill(g, bits, cells + [x]) == Visit(Fill(g, bits, cells), bits, x)
  {
    assert (cells + [x])[..|cells|] == cells;
  }

  /** `map_data(m, full_cw)`: the codewords' bits, most significant first, along the walk. */
  function MapDataGrid(g: Grid, fullCw: seq<Byte>): Grid {
    Fill(g, ToBitstring(fullCw), MapOrder(|g|)).grid
  }

  predicate NoDuplicates(cells: seq<Coord>) {
    forall i, j :: 0 <= i < j < |cells| ==> cells[i] != cells[j]
  }

  /** The cells of `cells` that are unset in `g`, in visiting order. */
  function UnsetCells(g: Grid, cells: seq<Coord>): seq<Coord> {
    if |cells| == 0 then []
    else
      var (r, c) := cells[|cells| - 1];
      UnsetCells(g, cells[..|cells| - 1])
        + (if 0 <= r < |g| && 0 <= c < |g[r]| && g[r][c] == UNSET then [(r, c)] else [])
  }

  /** Every cell of a grid is unset, 0 or 1. */
  ghost predicate Ternary(g: Grid) {
    forall r, c :: 0 <= r < |g| && 0 <= c < |g[r]| ==> g[r][c] in {UNSET, 0, 1}
  }

  /** A cell of the sweep is in one of the two columns and in a swept row. */
  lemma {:induction false} PairCellsMembers(size: int, col: int, up: bool, t: nat, x: Coord)
    ensures x in PairCells(size, col, up, t) <==> (x.1 == col || x.1 == col - 1) && RowSwept(size, up, t, x.0)
  {
    if t > 0 {
      PairCellsMembers(size, col, up, t - 1, x);
    }
  }

  lemma {:induction false} PairCellsDistinct(size: int, col: int, up: bool, t: nat)
    ensures NoDuplicates(PairCells(size, col, up, t))
  {
    if t > 0 {
      PairCellsDistinct(size, col, up, t - 1);
      var prev := PairCells(size, col, up, t - 1);
      var r := SweepRow(size, up, t - 1);
      forall x | x in prev ensures x.0 != r {
        PairCellsMembers(size, col, up, t - 1, x);
      }
      DistinctAppend(prev, [(r, col), (r, col - 1)]);
    }
  }

  /** Two duplicate-free lists with no common element concatenate to a duplicate-free list. */
  lemma DistinctAppend(a: seq<Coord>, b: seq<Coord>)
    requires NoDuplicates(a) && NoDuplicates(b)
    requires forall x :: x in a ==> x !in b
    ensures NoDuplicates(a + b)
  {
    forall i, j | 0 <= i < j < |a + b| ensures (a + b)[i] != (a + b)[j] {
      if i < |a| && j >= |a| {
        assert (a + b)[i] in a;
        assert (a + b)[j] == b[j - |a|];
      }
    }
  }

  /** Walks started at an even column of at least 6, or at an odd column below 6, skip exactly column 6. */
  predicate WalkStart(col: int) {
    (col >= 6 && col % 2 == 0) || (col < 6 && col % 2 == 1)
  }

  /**
   * From such a column the walk visits each cell (r, c) with 0 <= r < size,
   * 0 <= c <= col and c != 6 exactly once, and no other cell.
   */
  lemma {:induction false} WalkMembers(size: nat, col: int, up: bool, x: Coord)
    requires WalkStart(col)
    ensures x in Walk(size, col, up) <==> 0 <= x.0 < size && 0 <= x.1 <= col && x.1 != 6
  {
    if col <= 0 {
    } else if col == 6 {
      WalkMembers(size, col - 1, up, x);
    } else {
      PairCellsMembers(size, col, up, size, x);
      WalkMembers(size, col - 2, !up, x);
    }
  }

  lemma {:induction false} WalkDistinct(size: nat, col: int, up: bool)
    requires WalkStart(col)
    ensures NoDuplicates(Walk(size, col, up))
  {
    if col <= 0 {
    } else if col == 6 {
      WalkDistinct(size, col - 1, up);
    } else {
      var pairs, rest := PairCells(size, col, up, size), Walk(size, col - 2, !up);
      assert NoDuplicates(rest) by {
        WalkDistinct(size, col - 2, !up);
      }
      assert NoDuplicates(pairs) by {
        PairCellsDistinct(size, col, up, size);
      }
      forall x | x in pairs ensures x !in rest {
        PairCellsMembers(size, col, up, size, x);
        WalkMembers(size, col - 2, !up, x);
      }
      DistinctAppend(pairs, rest);
      assert Walk(size, col, up) == pairs + rest;
    }
  }

  /**
   * On an odd-sized grid of at least 7 the walk of `map_data` visits every
   * cell outside column 6 exactly once and never enters column 6.
   */
  lemma MapOrderCovers(size: nat, r: int, c: int)
    requires size >= 7 && size % 2 == 1
    ensures (r, c) in MapOrder(size) <==> InBounds(size, r, c) && c != 6
    ensures NoDuplicates(MapOrder(size))
  {
    WalkMembers(size, size - 1, true, (r, c));
    WalkDistinct(size, size - 1, true);
  }

  /** `map_data` never changes a cell that is already set. */
  lemma {:induction false} FillKeepsSetCells(g: Grid, bits: string, cells: seq<Coord>, r: int, c: int)
    requires 0 <= r < |g| && 0 <= c < |g[r]| && g[r][c] != UNSET
    ensures Fill(g, bits, cells).grid[r][c] == g[r][c]
  {
    if |cells| > 0 {
      FillKeepsSetCells(g, bits, cells[..|cells| - 1], r, c);
    }
  }

  /** A cell that is not visited keeps its value. */
  lemma {:induction false} FillKeepsUnvisited(g: Grid, bits: string, cells: seq<Coord>, r: int, c: int)
    requires 0 <= r < |g| && 0 <= c < |g[r]| && (r, c) !in cells
    ensures Fill(g, bits, cells).grid[r][c] == g[r][c]
  {
    if |cells| > 0 {
      var prefix, x := cells[..|cells| - 1], cells[|cells| - 1];
      assert cells == prefix + [x];
      FillKeepsUnvisited(g, bits, prefix, r, c);
      VisitOtherCell(Fill(g, bits, prefix), bits, x, r, c);
    }
  }

  /** A visit changes no cell but its own. */
  lemma VisitOtherCell(st: FillState, bits: string, x: Coord, r: int, c: int)
    requires 0 <= r < |st.grid| && 0 <= c < |st.grid[r]| && x != (r, c)
    ensures Visit(st, bits, x).grid[r][c] == st.grid[r][c]
  {
  }

  /**
   * Starting from a grid of unset, 0 and 1 cells, with binary bits, the grid
   * stays so and every visited cell ends up 0 or 1.
   */
  lemma {:induction false} FillSetsVisited(g: Grid, bits: string, cells: seq<Coord>)
    requires Ternary(g) && IsBinary(bits)
    ensures Ternary(Fill(g, bits, cells).grid)
    ensures forall x :: x in cells && 0 <= x.0 < |g| && 0 <= x.1 < |g[x.0]| ==> Fill(g, bits, cells).grid[x.0][x.1] in {0, 1}
  {
    if |cells| > 0 {
      var prefix := cells[..|cells| - 1];
      FillSetsVisited(g, bits, prefix);
      var before, after := Fill(g, bits, prefix), Fill(g, bits, cells);
      forall r, c | 0 <= r < |after.grid| && 0 <= c < |after.grid[r]| ensures after.grid[r][c] in {UNSET, 0, 1} {
        assert before.grid[r][c] in {UNSET, 0, 1};
      }
      forall x | x in cells && 0 <= x.0 < |g| && 0 <= x.1 < |g[x.0]|
        ensures Fill(g, bits, cells).grid[x.0][x.1] in {0, 1}
      {
        if x != cells[|cells| - 1] {
          assert x in prefix;
        }
      }
    }
  }

  /** Before the bits run out, the bit index is the number of unset cells met so far. */
  lemma {:induction false} FillExact(g: Grid, bits: string, cells: seq<Coord>)
    requires NoDuplicates(cells)
    ensures var st := Fill(g, bits, cells);
      var unset := UnsetCells(g, cells);
      && st.bitIdx == (if |unset| < |bits| then |unset| else |bits|)
      && forall j :: 0 <= j < |unset| && 0 <= unset[j].0 < |g| && 0 <= unset[j].1 < |g[unset[j].0]| ==>
           st.grid[unset[j].0][unset[j].1] == if j < |bits| then DigitValue(bits[j]) else 0
  {
    if |cells| > 0 {
      var prefix := cells[..|cells| - 1];
      var x := cells[|cells| - 1];
      assert NoDuplicates(prefix);
      FillExact(g, bits, prefix);
      var before := Fill(g, bits, prefix);
      assert Fill(g, bits, cells) == Visit(before, bits, x);
      var u := UnsetCells(g, prefix);
      UnsetCellsIn(g, prefix);
      assert x !in prefix;
      if 0 <= x.0 < |g| && 0 <= x.1 < |g[x.0]| {
        FillKeepsUnvisited(g, bits, prefix, x.0, x.1);
      }
      var unset := UnsetCells(g, cells);
      forall j | 0 <= j < |unset| && 0 <= unset[j].0 < |g| && 0 <= unset[j].1 < |g[unset[j].0]|
        ensures Fill(g, bits, cells).grid[unset[j].0][unset[j].1] == if j < |bits| then DigitValue(bits[j]) else 0
      {
        if j < |u| {
          assert unset[j] == u[j] && u[j] in prefix;
          VisitOtherCell(before, bits, x, u[j].0, u[j].1);
        } else {
          assert unset[j] == x && g[x.0][x.1] == UNSET;
        }
      }
    }
  }

  lemma {:induction false} UnsetCellsIn(g: Grid, cells: seq<Coord>)
    ensures forall x :: x in UnsetCells(g, cells) ==> x in cells
  {
    if |cells| > 0 {
      var prefix, last := cells[..|cells| - 1], cells[|cells| - 1];
      assert cells == prefix + [last];
      UnsetCellsIn(g, prefix);
      forall x | x in UnsetCells(g, cells) ensures x in cells {
        if x != last {
          assert x in UnsetCells(g, prefix);
        }
      }
    }
  }
}

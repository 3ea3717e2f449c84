/**
 * The symbol grid as the source holds it, a list of rows of ints where -1
 * marks a module that has not been set yet, and the single-cell writes
 * `m[r][c] = v` out of which every builder is made. A builder is modelled
 * by the list of writes it performs, in order; `ApplyWrites` replays such a
 * list on a grid, `Lookup` says which value the last write to a cell left
 * there and `Coords` is the set of cells the builder marks as function
 * modules.
 */
module Grid {
  import opened Wrappers

  type Coord = (int, int)
  type Grid = seq<seq<int>>

  /** The value `initialise_matrix` puts in every cell. */
  const UNSET: int := -1

  predicate IsSquare(g: Grid, n: int) {
    |g| == n && forall r :: 0 <= r < |g| ==> |g[r]| == n
  }

  predicate InBounds(n: int, r: int, c: int) {
    0 <= r < n && 0 <= c < n
  }

  /** `initialise_matrix(size)`: a size x size grid, every cell unset. */
  function InitialiseMatrix(size: nat): (g: Grid)
    ensures IsSquare(g, size)
    ensures forall r, c :: InBounds(size, r, c) ==> g[r][c] == UNSET
  {
    seq(size, _ => seq(size, _ => UNSET))
  }

  /** `m[r][c] = v`, one cell of one row replaced. */
  datatype Write = Write(row: int, col: int, value: int)

  function At(w: Write): Coord {
    (w.row, w.col)
  }

  /** The grid after `m[r][c] = v`; a cell outside the grid is not written. */
  function Set(g: Grid, r: int, c: int, v: int): (h: Grid)
    ensures |h| == |g| && forall i :: 0 <= i < |g| ==> |h[i]| == |g[i]|
  {
    if 0 <= r < |g| && 0 <= c < |g[r]| then g[r := g[r][c := v]] else g
  }

  /** The grid after performing the writes `ws` in order. */
  function ApplyWrites(g: Grid, ws: seq<Write>): (h: Grid)
    ensures |h| == |g| && forall i :: 0 <= i < |g| ==> |h[i]| == |g[i]|
  {
    if |ws| == 0 then g
    else
      var w := ws[|ws| - 1];
      Set(ApplyWrites(g, ws[..|ws| - 1]), w.row, w.col, w.value)
  }

  /** The value the last write of `ws` to cell (r, c) stores, if any write does. */
  function Lookup(ws: seq<Write>, r: int, c: int): Option<int> {
    if |ws| == 0 then None
    else if At(ws[|ws| - 1]) == (r, c) then Some(ws[|ws| - 1].value)
    else Lookup(ws[..|ws| - 1], r, c)
  }

  /** The cells `ws` writes: what the builder adds to `FUNCTION_MODULES`. */
  function Coords(ws: seq<Write>): set<Coord> {
    if |ws| == 0 then {} else Coords(ws[..|ws| - 1]) + {At(ws[|ws| - 1])}
  }

  /** Every listed cell written with the same value, in list order. */
  function Constant(cells: seq<Coord>, v: int): (ws: seq<Write>)
    ensures |ws| == |cells|
    ensures forall k :: 0 <= k < |cells| ==> ws[k] == Write(cells[k].0, cells[k].1, v)
  {
    seq(|cells|, k requires 0 <= k < |cells| => Write(cells[k].0, cells[k].1, v))
  }

  /** A cell of the grid holds the last value written to it, or its old value when none was. */
  lemma {:induction false} ApplyWritesCell(g: Grid, ws: seq<Write>, r: int, c: int)
    requires 0 <= r < |g| && 0 <= c < |g[r]|
    ensures ApplyWrites(g, ws)[r][c] == match Lookup(ws, r, c) case Some(v) => v case None => g[r][c]
  {
    if |ws| > 0 {
      ApplyWritesCell(g, ws[..|ws| - 1], r, c);
    }
  }

  /** One more write: the grid gets one more cell replaced and the marked set one more cell. */
  lemma WriteStep(g: Grid, ws: seq<Write>, w: Write)
    ensures ApplyWrites(g, ws + [w]) == Set(ApplyWrites(g, ws), w.row, w.col, w.value)
    ensures Coords(ws + [w]) == Coords(ws) + {At(w)}
  {
    assert (ws + [w])[..|ws|] == ws;
  }

  /** Every value a lookup returns is one some write stores. */
  lemma {:induction false} LookupValueIn(ws: seq<Write>, values: set<int>, r: int, c: int)
    requires forall k :: 0 <= k < |ws| ==> ws[k].value in values
    ensures Lookup(ws, r, c).Some? ==> Lookup(ws, r, c).value in values
  {
    if |ws| > 0 {
      LookupValueIn(ws[..|ws| - 1], values, r, c);
    }
  }

  /** Performing `a` then `b` is performing `a + b`. */
  lemma {:induction false} ApplyWritesAppend(g: Grid, a: seq<Write>, b: seq<Write>)
    ensures ApplyWrites(g, a + b) == ApplyWrites(ApplyWrites(g, a), b)
  {
    if |b| == 0 {
      assert a + b == a;
    } else {
      assert (a + b)[..|a + b| - 1] == a + b[..|b| - 1];
      ApplyWritesAppend(g, a, b[..|b| - 1]);
    }
  }

  /** Performing `a` then `b`, on the grid and on a marked set that held `reserved` before `a`. */
  lemma WritesThen(g: Grid, reserved: set<Coord>, a: seq<Write>, b: seq<Write>)
    ensures ApplyWrites(g, a + b) == ApplyWrites(ApplyWrites(g, a), b)
    ensures reserved + Coords(a + b) == reserved + Coords(a) + Coords(b)
  {
    ApplyWritesAppend(g, a, b);
    CoordsAppend(a, b);
  }

  /** One more write, on a marked set that held `reserved` before `ws`. */
  lemma MarkStep(reserved: set<Coord>, ws: seq<Write>, w: Write)
    ensures reserved + Coords(ws + [w]) == reserved + Coords(ws) + {At(w)}
  {
    WriteStep([], ws, w);
  }

  /** The later list wins: a cell written by `b` holds `b`'s value. */
  lemma {:induction false} LookupAppend(a: seq<Write>, b: seq<Write>, r: int, c: int)
    ensures Lookup(a + b, r, c) == if Lookup(b, r, c).Some? then Lookup(b, r, c) else Lookup(a, r, c)
  {
    if |b| == 0 {
      assert a + b == a;
    } else {
      assert (a + b)[..|a + b| - 1] == a + b[..|b| - 1];
      LookupAppend(a, b[..|b| - 1], r, c);
    }
  }

  lemma {:induction false} CoordsAppend(a: seq<Write>, b: seq<Write>)
    ensures Coords(a + b) == Coords(a) + Coords(b)
  {
    if |b| == 0 {
      assert a + b == a;
    } else {
      assert (a + b)[..|a + b| - 1] == a + b[..|b| - 1];
      CoordsAppend(a, b[..|b| - 1]);
    }
  }

  /** A cell is marked exactly when some write of the list targets it. */
  lemma {:induction false} CoordsLookup(ws: seq<Write>, r: int, c: int)
    ensures (r, c) in Coords(ws) <==> Lookup(ws, r, c).Some?
  {
    if |ws| > 0 {
      CoordsLookup(ws[..|ws| - 1], r, c);
    }
  }

  /** Every write's cell is marked. */
  lemma {:induction false} CoordsContains(ws: seq<Write>, k: int)
    requires 0 <= k < |ws|
    ensures At(ws[k]) in Coords(ws)
  {
    if k < |ws| - 1 {
      CoordsContains(ws[..|ws| - 1], k);
    }
  }

  /** A cell no write targets is not in the list's lookup. */
  lemma {:induction false} LookupNone(ws: seq<Write>, r: int, c: int)
    requires forall k :: 0 <= k < |ws| ==> At(ws[k]) != (r, c)
    ensures Lookup(ws, r, c) == None
  {
    if |ws| > 0 {
      LookupNone(ws[..|ws| - 1], r, c);
    }
  }

  /** The write at index `k` decides its cell when no later write targets that cell. */
  lemma {:induction false} LookupAt(ws: seq<Write>, k: int)
    requires 0 <= k < |ws|
    requires forall j :: k < j < |ws| ==> At(ws[j]) != At(ws[k])
    ensures Lookup(ws, ws[k].row, ws[k].col) == Some(ws[k].value)
  {
    if k < |ws| - 1 {
      LookupAt(ws[..|ws| - 1], k);
    }
  }

  /** Writing one value to a list of cells sets exactly the listed cells to it. */
  lemma LookupConstant(cells: seq<Coord>, v: int, r: int, c: int)
    ensures Lookup(Constant(cells, v), r, c) == if (r, c) in cells then Some(v) else None
  {
    var ws := Constant(cells, v);
    if (r, c) in cells {
      var k :| 0 <= k < |cells| && cells[k] == (r, c);
      while k + 1 < |cells| && (r, c) in cells[k + 1..]
        invariant 0 <= k < |cells| && cells[k] == (r, c)
        decreases |cells| - k
      {
        var j :| k + 1 <= j < |cells| && cells[j] == (r, c);
        k := j;
      }
      forall j | k < j < |ws| ensures At(ws[j]) != At(ws[k]) {
        assert cells[j] in cells[k + 1..];
      }
      LookupAt(ws, k);
    } else {
      LookupNone(ws, r, c);
    }
  }

  /** A cell that no write targets keeps its value. */
  lemma UnwrittenUnchanged(g: Grid, ws: seq<Write>, r: int, c: int)
    requires 0 <= r < |g| && 0 <= c < |g[r]| && (r, c) !in Coords(ws)
    ensures ApplyWrites(g, ws)[r][c] == g[r][c]
  {
    CoordsLookup(ws, r, c);
    ApplyWritesCell(g, ws, r, c);
  }

  /** Row `i` of a rectangular pattern stamped with its top-left corner at (r0, c0). */
  function BlockRow(r0: int, c0: int, pat: seq<seq<int>>, i: int): (ws: seq<Write>)
    requires 0 <= i < |pat|
    ensures |ws| == |pat[i]|
    ensures forall j :: 0 <= j < |ws| ==> ws[j] == Write(r0 + i, c0 + j, pat[i][j])
  {
    seq(|pat[i]|, j requires 0 <= j < |pat[i]| => Write(r0 + i, c0 + j, pat[i][j]))
  }

  /** The first `rows` rows of a pattern stamped at (r0, c0), row by row, left to right. */
  function Block(r0: int, c0: int, pat: seq<seq<int>>, rows: nat): seq<Write>
    requires rows <= |pat|
  {
    if rows == 0 then [] else Block(r0, c0, pat, rows - 1) + BlockRow(r0, c0, pat, rows - 1)
  }

  predicate IsRect(pat: seq<seq<int>>, w: nat) {
    forall i :: 0 <= i < |pat| ==> |pat[i]| == w
  }

  /** Within one stamped row each column is written once. */
  lemma LookupBlockRow(r0: int, c0: int, pat: seq<seq<int>>, i: int, r: int, c: int)
    requires 0 <= i < |pat|
    ensures Lookup(BlockRow(r0, c0, pat, i), r, c)
         == if r == r0 + i && c0 <= c < c0 + |pat[i]| then Some(pat[i][c - c0]) else None
  {
    var ws := BlockRow(r0, c0, pat, i);
    if r == r0 + i && c0 <= c < c0 + |pat[i]| {
      LookupAt(ws, c - c0);
    } else {
      LookupNone(ws, r, c);
    }
  }

  /** A stamped block holds the pattern inside its rectangle and writes nothing outside it. */
  lemma {:induction false} LookupBlock(r0: int, c0: int, pat: seq<seq<int>>, w: nat, rows: nat, r: int, c: int)
    requires IsRect(pat, w) && rows <= |pat|
    ensures Lookup(Block(r0, c0, pat, rows), r, c)
         == if r0 <= r < r0 + rows && c0 <= c < c0 + w then Some(pat[r - r0][c - c0]) else None
  {
    if rows > 0 {
      var above, row := Block(r0, c0, pat, rows - 1), BlockRow(r0, c0, pat, rows - 1);
      LookupAppend(above, row, r, c);
      assert Lookup(above, r, c)
          == if r0 <= r < r0 + rows - 1 && c0 <= c < c0 + w then Some(pat[r - r0][c - c0]) else None by {
        LookupBlock(r0, c0, pat, w, rows - 1, r, c);
      }
      assert Lookup(row, r, c)
          == if r == r0 + rows - 1 && c0 <= c < c0 + w then Some(pat[rows - 1][c - c0]) else None by {
        LookupBlockRow(r0, c0, pat, rows - 1, r, c);
      }
    }
  }

  /** The filter on one more write. */
  lemma UnreservedSnoc(ws: seq<Write>, w: Write, n: int, reserved: set<Coord>)
    ensures Unreserved(ws + [w], n, reserved)
         == Unreserved(ws, n, reserved) + (if InBounds(n, w.row, w.col) && At(w) !in reserved then [w] else [])
  {
    assert (ws + [w])[..|ws|] == ws;
  }

  /**
   * The first `j` cells of row `i` of a stamp that skips cells outside an
   * n x n grid and cells in `reserved`.
   */
  function RowTrace(r0: int, c0: int, pat: seq<seq<int>>, i: nat, j: nat, n: int, reserved: set<Coord>): seq<Write>
    requires i < |pat| && j <= |pat[i]|
  {
    if j == 0 then []
    else
      var c := c0 + j - 1;
      RowTrace(r0, c0, pat, i, j - 1, n, reserved)
        + (if InBounds(n, r0 + i, c) && (r0 + i, c) !in reserved then [Write(r0 + i, c, pat[i][j - 1])] else [])
  }

  /** The grid after the first `j` cells of a row trace, written one `Set` at a time. */
  function RowGrid(g: Grid, r0: int, c0: int, pat: seq<seq<int>>, i: nat, j: nat, n: int, reserved: set<Coord>): (h: Grid)
    requires i < |pat| && j <= |pat[i]|
    ensures |h| == |g| && forall k :: 0 <= k < |g| ==> |h[k]| == |g[k]|
  {
    if j == 0 then g
    else
      var c := c0 + j - 1;
      var h := RowGrid(g, r0, c0, pat, i, j - 1, n, reserved);
      if InBounds(n, r0 + i, c) && (r0 + i, c) !in reserved then Set(h, r0 + i, c, pat[i][j - 1]) else h
  }

  lemma {:induction false} RowGridWrites(g: Grid, r0: int, c0: int, pat: seq<seq<int>>, i: nat, j: nat, n: int, reserved: set<Coord>)
    requires i < |pat| && j <= |pat[i]|
    ensures RowGrid(g, r0, c0, pat, i, j, n, reserved) == ApplyWrites(g, RowTrace(r0, c0, pat, i, j, n, reserved))
  {
    if j > 0 {
      var c := c0 + j - 1;
      RowGridWrites(g, r0, c0, pat, i, j - 1, n, reserved);
      if InBounds(n, r0 + i, c) && (r0 + i, c) !in reserved {
        WriteStep(g, RowTrace(r0, c0, pat, i, j - 1, n, reserved), Write(r0 + i, c, pat[i][j - 1]));
      } else {
        assert RowTrace(r0, c0, pat, i, j, n, reserved) == RowTrace(r0, c0, pat, i, j - 1, n, reserved);
      }
    }
  }

  /** A row trace has not yet touched the cells to its right. */
  lemma {:induction false} RowTraceFresh(r0: int, c0: int, pat: seq<seq<int>>, i: nat, j: nat, n: int, reserved: set<Coord>, k: int)
    requires i < |pat| && j <= |pat[i]| && j <= k
    ensures (r0 + i, c0 + k) !in Coords(RowTrace(r0, c0, pat, i, j, n, reserved))
  {
    if j > 0 {
      var c := c0 + j - 1;
      RowTraceFresh(r0, c0, pat, i, j - 1, n, reserved, k);
      CoordsAppend(RowTrace(r0, c0, pat, i, j - 1, n, reserved),
                   if InBounds(n, r0 + i, c) && (r0 + i, c) !in reserved then [Write(r0 + i, c, pat[i][j - 1])] else []);
    }
  }

  /** A whole row trace is the filtered row. */
  lemma {:induction false} RowTraceComplete(r0: int, c0: int, pat: seq<seq<int>>, i: nat, j: nat, n: int, reserved: set<Coord>)
    requires i < |pat| && j <= |pat[i]|
    ensures RowTrace(r0, c0, pat, i, j, n, reserved) == Unreserved(BlockRow(r0, c0, pat, i)[..j], n, reserved)
  {
    var row := BlockRow(r0, c0, pat, i);
    if j == 0 {
      assert row[..0] == [];
    } else {
      RowTraceComplete(r0, c0, pat, i, j - 1, n, reserved);
      assert row[..j] == row[..j - 1] + [row[j - 1]];
      UnreservedSnoc(row[..j - 1], row[j - 1], n, reserved);
    }
  }

  /** A filtered stamp grows by the trace of one whole row at a time. */
  lemma UnreservedNextRow(r0: int, c0: int, pat: seq<seq<int>>, w: nat, i: nat, n: int, reserved: set<Coord>)
    requires IsRect(pat, w) && i < |pat|
    ensures Unreserved(Block(r0, c0, pat, i + 1), n, reserved)
         == Unreserved(Block(r0, c0, pat, i), n, reserved) + RowTrace(r0, c0, pat, i, w, n, reserved)
  {
    RowTraceComplete(r0, c0, pat, i, w, n, reserved);
    assert BlockRow(r0, c0, pat, i)[..w] == BlockRow(r0, c0, pat, i);
    UnreservedAppend(Block(r0, c0, pat, i), BlockRow(r0, c0, pat, i), n, reserved);
  }

  /** No write of `ws` is in row `r`. */
  ghost predicate AvoidsRow(ws: seq<Write>, r: int) {
    forall k :: 0 <= k < |ws| ==> ws[k].row != r
  }

  lemma {:induction false} AvoidsRowCoords(ws: seq<Write>, r: int, c: int)
    requires AvoidsRow(ws, r)
    ensures (r, c) !in Coords(ws)
  {
    if |ws| > 0 {
      AvoidsRowCoords(ws[..|ws| - 1], r, c);
    }
  }

  /** The rows of a filtered stamp above row `i` leave row `i` alone. */
  lemma BlockAvoidsRow(r0: int, c0: int, pat: seq<seq<int>>, w: nat, i: nat, n: int, reserved: set<Coord>)
    requires IsRect(pat, w) && i <= |pat|
    ensures AvoidsRow(Unreserved(Block(r0, c0, pat, i), n, reserved), r0 + i)
  {
    var ws := Unreserved(Block(r0, c0, pat, i), n, reserved);
    UnreservedCells(Block(r0, c0, pat, i), n, reserved);
    forall k | 0 <= k < |ws| ensures ws[k].row != r0 + i {
      assert ws[k] in ws;
      var x := ws[k];
      var m :| 0 <= m < |Block(r0, c0, pat, i)| && Block(r0, c0, pat, i)[m] == x;
      CoordsContains(Block(r0, c0, pat, i), m);
      CoordsLookup(Block(r0, c0, pat, i), x.row, x.col);
      LookupBlock(r0, c0, pat, w, i, x.row, x.col);
    }
  }

  /** The writes of `ws` that land inside an n x n grid on a cell not in `reserved`. */
  function Unreserved(ws: seq<Write>, n: int, reserved: set<Coord>): seq<Write> {
    if |ws| == 0 then []
    else
      var w := ws[|ws| - 1];
      Unreserved(ws[..|ws| - 1], n, reserved)
        + (if InBounds(n, w.row, w.col) && At(w) !in reserved then [w] else [])
  }

  /** Only in-bounds, unreserved cells survive the filter, with the values they had. */
  lemma {:induction false} UnreservedCells(ws: seq<Write>, n: int, reserved: set<Coord>)
    ensures forall w :: w in Unreserved(ws, n, reserved) ==> w in ws && InBounds(n, w.row, w.col) && At(w) !in reserved
  {
    if |ws| > 0 {
      UnreservedCells(ws[..|ws| - 1], n, reserved);
    }
  }

  lemma {:induction false} UnreservedAppend(a: seq<Write>, b: seq<Write>, n: int, reserved: set<Coord>)
    ensures Unreserved(a + b, n, reserved) == Unreserved(a, n, reserved) + Unreserved(b, n, reserved)
  {
    if |b| == 0 {
      assert a + b == a;
    } else {
      assert (a + b)[..|a + b| - 1] == a + b[..|b| - 1];
      UnreservedAppend(a, b[..|b| - 1], n, reserved);
    }
  }

  /** When every write is in bounds and hits no reserved cell, the filter keeps them all. */
  lemma {:induction false} UnreservedAll(ws: seq<Write>, n: int, reserved: set<Coord>)
    requires forall k :: 0 <= k < |ws| ==> InBounds(n, ws[k].row, ws[k].col) && At(ws[k]) !in reserved
    ensures Unreserved(ws, n, reserved) == ws
  {
    if |ws| > 0 {
      UnreservedAll(ws[..|ws| - 1], n, reserved);
    }
  }

  /** The cells marked by a filtered list are among those of the full list. */
  lemma {:induction false} CoordsUnreserved(ws: seq<Write>, n: int, reserved: set<Coord>)
    ensures Coords(Unreserved(ws, n, reserved)) <= Coords(ws)
  {
    if |ws| > 0 {
      var w := ws[|ws| - 1];
      CoordsUnreserved(ws[..|ws| - 1], n, reserved);
      CoordsAppend(Unreserved(ws[..|ws| - 1], n, reserved), if InBounds(n, w.row, w.col) && At(w) !in reserved then [w] else []);
    }
  }
}

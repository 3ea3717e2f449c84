/**
 * The matrix builders that work in place: the grid `m` each of them is
 * passed and the module-wide set `FUNCTION_MODULES` of reserved cells are
 * the two fields of a `Symbol`. Each method is proved to leave the state
 * the write lists of `Patterns`, the walk of `Placement` and the mask of
 * `Masking` describe.
 */
module Builder {
  import opened Bits
  import opened Grid
  import opened Patterns
  import opened Placement
  import opened Masking

  class Symbol {
    /** The grid `m` the builders are handed, row by row. */
    var matrix: Grid
    /** `FUNCTION_MODULES`: the cells a later stage must not overwrite. */
    var functionModules: set<Coord>

    /** The state before any symbol is built: no grid and `FUNCTION_MODULES = set()`. */
    constructor ()
      ensures matrix == [] && functionModules == {}
    {
      matrix := [];
      functionModules := {};
    }

    /** `reset_function_modules()`. */
    method ResetFunctionModules()
      modifies this
      ensures functionModules == {} && matrix == old(matrix)
    {
      functionModules := {};
    }

    /** `mark_function(r, c)`. */
    method MarkFunction(r: int, c: int)
      modifies this
      ensures functionModules == old(functionModules) + {(r, c)} && matrix == old(matrix)
    {
      functionModules := functionModules + {(r, c)};
    }

    /** `place_finder_pattern(m, r, c)`: all 49 cells are written and reserved. */
    method PlaceFinderPattern(r: int, c: int)
      requires IsSquare(matrix, |matrix|)
      requires 0 <= r && r + 7 <= |matrix| && 0 <= c && c + 7 <= |matrix|
      modifies this
      ensures IsSquare(matrix, |old(matrix)|)
      ensures matrix == ApplyWrites(old(matrix), FinderWrites(r, c))
      ensures functionModules == old(functionModules) + Coords(FinderWrites(r, c))
    {
      FinderIsRect();
      Stamp(r, c, FINDER, 7);
    }

    /**
     * The loops of `place_finder_pattern` for any w-wide pattern `pat` that
     * fits in the grid with its top-left corner at (r0, c0): `dr` and `dc`
     * there are `i` and `j` here.
     */
    method Stamp(r0: int, c0: int, pat: seq<seq<int>>, w: nat)
      requires IsSquare(matrix, |matrix|) && IsRect(pat, w)
      requires 0 <= r0 && r0 + |pat| <= |matrix| && 0 <= c0 && c0 + w <= |matrix|
      modifies this
      ensures IsSquare(matrix, |old(matrix)|)
      ensures matrix == ApplyWrites(old(matrix), Block(r0, c0, pat, |pat|))
      ensures functionModules == old(functionModules) + Coords(Block(r0, c0, pat, |pat|))
    {
      ghost var g0, reserved0, n := matrix, functionModules, |matrix|;
      ghost var done: seq<Write> := [];
      var i := 0;
      while i < |pat|
        invariant 0 <= i <= |pat| && IsSquare(matrix, n)
        invariant done == Block(r0, c0, pat, i)
        invariant matrix == ApplyWrites(g0, done)
        invariant functionModules == reserved0 + Coords(done)
      {
        StampRow(r0, c0, pat, w, i);
        ghost var row := BlockRow(r0, c0, pat, i);
        WritesThen(g0, reserved0, done, row);
        done := done + row;
        i := i + 1;
      }
    }

    /** Row `i` of `Stamp`: the inner loop, its writes performed in order. */
    method StampRow(r0: int, c0: int, pat: seq<seq<int>>, w: nat, i: nat)
      requires IsSquare(matrix, |matrix|) && IsRect(pat, w) && i < |pat|
      requires 0 <= r0 + i < |matrix| && 0 <= c0 && c0 + w <= |matrix|
      modifies this
      ensures IsSquare(matrix, |old(matrix)|)
      ensures matrix == ApplyWrites(old(matrix), BlockRow(r0, c0, pat, i))
      ensures functionModules == old(functionModules) + Coords(BlockRow(r0, c0, pat, i))
    {
      var row := BlockRow(r0, c0, pat, i);
      assert forall k :: 0 <= k < |row| ==> InBounds(|matrix|, row[k].row, row[k].col);
      PerformWrites(row);
    }

    /**
     * `place_alignment_pattern(m, r, c)`: of the 25 cells centred on (r, c),
     * those inside the grid and not reserved when it starts are written and
     * reserved; the rest are left alone.
     */
    method PlaceAlignmentPattern(r: int, c: int)
      requires IsSquare(matrix, |matrix|)
      modifies this
      ensures IsSquare(matrix, |old(matrix)|)
      ensures matrix == ApplyWrites(old(matrix), AlignmentWrites(|old(matrix)|, old(functionModules), r, c))
      ensures functionModules == old(functionModules) + Coords(AlignmentWrites(|old(matrix)|, old(functionModules), r, c))
    {
      FinderIsRect();
      StampUnreserved(r - 2, c - 2, ALIGNMENT, 5);
    }

    /**
     * The loops of `place_alignment_pattern` for any w-wide pattern `pat`
     * with its top-left corner at (r0, c0): `dr + 2` and `dc + 2` there are
     * `i` and `j` here.
     */
    method StampUnreserved(r0: int, c0: int, pat: seq<seq<int>>, w: nat)
      requires IsSquare(matrix, |matrix|) && IsRect(pat, w)
      modifies this
      ensures IsSquare(matrix, |old(matrix)|)
      ensures matrix == ApplyWrites(old(matrix), Unreserved(Block(r0, c0, pat, |pat|), |old(matrix)|, old(functionModules)))
      ensures functionModules == old(functionModules) + Coords(Unreserved(Block(r0, c0, pat, |pat|), |old(matrix)|, old(functionModules)))
    {
      ghost var g0, reserved0, n := matrix, functionModules, |matrix|;
      ghost var above: seq<Write> := [];
      var i := 0;
      while i < |pat|
        invariant 0 <= i <= |pat| && IsSquare(matrix, n)
        invariant above == Unreserved(Block(r0, c0, pat, i), n, reserved0)
        invariant matrix == ApplyWrites(g0, above)
        invariant functionModules == reserved0 + Coords(above)
      {
        BlockAvoidsRow(r0, c0, pat, w, i, n, reserved0);
        StampRowUnreserved(r0, c0, pat, w, i, reserved0, above);
        ghost var row := RowTrace(r0, c0, pat, i, w, n, reserved0);
        WritesThen(g0, reserved0, above, row);
        UnreservedNextRow(r0, c0, pat, w, i, n, reserved0);
        above := above + row;
        i := i + 1;
      }
    }

    /** Row `i` of `StampUnreserved`: the inner loop, over `dc` there and `j` here. */
    method StampRowUnreserved(r0: int, c0: int, pat: seq<seq<int>>, w: nat, i: nat,
                              ghost reserved0: set<Coord>, ghost above: seq<Write>)
      requires IsRect(pat, w) && i < |pat| && IsSquare(matrix, |matrix|)
      requires AvoidsRow(above, r0 + i)
      requires functionModules == reserved0 + Coords(above)
      modifies this
      ensures IsSquare(matrix, |old(matrix)|)
      ensures matrix == ApplyWrites(old(matrix), RowTrace(r0, c0, pat, i, w, |old(matrix)|, reserved0))
      ensures functionModules == old(functionModules) + Coords(RowTrace(r0, c0, pat, i, w, |old(matrix)|, reserved0))
    {
      ghost var g1, n := matrix, |matrix|;
      ghost var row := [];
      var j := 0;
      while j < w
        invariant 0 <= j <= w
        invariant row == RowTrace(r0, c0, pat, i, j, n, reserved0)
        invariant matrix == RowGrid(g1, r0, c0, pat, i, j, n, reserved0)
        invariant functionModules == reserved0 + Coords(above) + Coords(row)
      {
        var nr := r0 + i;
        var nc := c0 + j;
        RowTraceFresh(r0, c0, pat, i, j, n, reserved0, j);
        AvoidsRowCoords(above, nr, nc);
        if 0 <= nr < |matrix| && 0 <= nc < |matrix| && (nr, nc) !in functionModules {
          CoordsAppend(row, [Write(nr, nc, pat[i][j])]);
          row := row + [Write(nr, nc, pat[i][j])];
          matrix := matrix[nr := matrix[nr][nc := pat[i][j]]];
          MarkFunction(nr, nc);
        }
        j := j + 1;
      }
      RowGridWrites(g1, r0, c0, pat, i, w, n, reserved0);
    }

    /**
     * A run of writes `m[r][c] = v; mark_function(r, c)` performed in order,
     * every cell inside the grid: the separator loop of `apply_patterns` and
     * the inner pair loop of its timing loop.
     */
    method PerformWrites(ws: seq<Write>)
      requires IsSquare(matrix, |matrix|)
      requires forall k :: 0 <= k < |ws| ==> InBounds(|matrix|, ws[k].row, ws[k].col)
      modifies this
      ensures IsSquare(matrix, |old(matrix)|)
      ensures matrix == ApplyWrites(old(matrix), ws)
      ensures functionModules == old(functionModules) + Coords(ws)
    {
      ghost var g1, reserved1 := matrix, functionModules;
      var k := 0;
      while k < |ws|
        invariant 0 <= k <= |ws|
        invariant matrix == ApplyWrites(g1, ws[..k])
        invariant functionModules == reserved1 + Coords(ws[..k])
      {
        var w := ws[k];
        WriteStep(g1, ws[..k], w);
        MarkStep(reserved1, ws[..k], w);
        assert ws[..k + 1] == ws[..k] + [w];
        matrix := matrix[w.row := matrix[w.row][w.col := w.value]];
        MarkFunction(w.row, w.col);
        k := k + 1;
      }
      assert ws[..k] == ws;
    }

    /** The timing loop of `apply_patterns`: `i % 2` into (6, i) and (i, 6) for 8 <= i < size - 8. */
    method PlaceTimingPatterns()
      requires IsSquare(matrix, |matrix|) && |matrix| >= 9
      modifies this
      ensures IsSquare(matrix, |old(matrix)|)
      ensures matrix == ApplyWrites(old(matrix), TimingWrites(|old(matrix)| - 8))
      ensures functionModules == old(functionModules) + Coords(TimingWrites(|old(matrix)| - 8))
    {
      ghost var g1, reserved1 := matrix, functionModules;
      ghost var done: seq<Write> := [];
      var size := |matrix|;
      var i := 8;
      while i < size - 8
        invariant 8 <= i && (i <= size - 8 || i == 8) && IsSquare(matrix, size)
        invariant done == TimingWrites(i)
        invariant matrix == ApplyWrites(g1, done)
        invariant functionModules == reserved1 + Coords(done)
      {
        var pair := TimingPair(i);
        WritesThen(g1, reserved1, done, pair);
        PerformWrites(pair);
        done := done + pair;
        i := i + 1;
      }
    }

    /**
     * `apply_patterns(m, version)`: the fixed patterns, then, for a version 2
     * grid of size 25, the alignment pattern at (18, 18).
     */
    method ApplyPatterns(version: int)
      requires IsSquare(matrix, |matrix|) && |matrix| >= 9
      modifies this
      ensures IsSquare(matrix, |old(matrix)|)
      ensures matrix == ApplyWrites(old(matrix), PatternWrites(|old(matrix)|, version, old(functionModules)))
      ensures functionModules == old(functionModules) + Coords(PatternWrites(|old(matrix)|, version, old(functionModules)))
    {
      var size := |matrix|;
      ghost var g0, reserved0 := matrix, functionModules;
      PlaceFixedPatterns();
      WritesThen(g0, reserved0, FixedPatternWrites(size), VersionAlignment(size, version, functionModules));
      PlaceVersionAlignment(version);
    }

    /** The last step of `apply_patterns`: the alignment pattern, for a version 2 grid of size 25 only. */
    method PlaceVersionAlignment(version: int)
      requires IsSquare(matrix, |matrix|)
      modifies this
      ensures IsSquare(matrix, |old(matrix)|)
      ensures matrix == ApplyWrites(old(matrix), VersionAlignment(|old(matrix)|, version, old(functionModules)))
      ensures functionModules == old(functionModules) + Coords(VersionAlignment(|old(matrix)|, version, old(functionModules)))
    {
      var size := |matrix|;
      if version >= 2 {
        if size == 25 {
          PlaceAlignmentPattern(18, 18);
        }
      }
    }

    /**
     * The part of `apply_patterns` every version shares: the finder corners,
     * the separators, the timing patterns and the dark module.
     */
    method PlaceFixedPatterns()
      requires IsSquare(matrix, |matrix|) && |matrix| >= 9
      modifies this
      ensures IsSquare(matrix, |old(matrix)|)
      ensures matrix == ApplyWrites(old(matrix), FixedPatternWrites(|old(matrix)|))
      ensures functionModules == old(functionModules) + Coords(FixedPatternWrites(|old(matrix)|))
    {
      var size := |matrix|;
      ghost var g0, reserved0 := matrix, functionModules;
      ghost var finders := FinderRun(FinderCorners(size), 3);
      ghost var tim := TimingWrites(size - 8);
      PlaceFinderPatterns();
      assert matrix == ApplyWrites(g0, finders) && functionModules == reserved0 + Coords(finders);
      var sep := Constant(SeparatorCoords(size), 0);
      SeparatorsInBounds(size);
      WritesThen(g0, reserved0, finders, sep);
      PerformWrites(sep);
      ghost var ws := finders + sep;
      assert matrix == ApplyWrites(g0, ws) && functionModules == reserved0 + Coords(ws);
      WritesThen(g0, reserved0, ws, tim);
      assert |matrix| == size && tim == TimingWrites(|matrix| - 8);
      PlaceTimingPatterns();
      ws := ws + tim;
      assert matrix == ApplyWrites(g0, ws) && functionModules == reserved0 + Coords(ws);
      WriteStep(g0, ws, DarkModuleWrite(size));
      MarkStep(reserved0, ws, DarkModuleWrite(size));
      PlaceDarkModule();
      ghost var all := ws + [DarkModuleWrite(size)];
      assert matrix == ApplyWrites(g0, all);
      assert functionModules == reserved0 + Coords(all);
      assert all == FixedPatternWrites(size);
    }

    /** The loop `for r, c in [(0, 0), (0, size - 7), (size - 7, 0)]` of `apply_patterns`. */
    method PlaceFinderPatterns()
      requires IsSquare(matrix, |matrix|) && |matrix| >= 9
      modifies this
      ensures IsSquare(matrix, |old(matrix)|)
      ensures matrix == ApplyWrites(old(matrix), FinderRun(FinderCorners(|old(matrix)|), 3))
      ensures functionModules == old(functionModules) + Coords(FinderRun(FinderCorners(|old(matrix)|), 3))
    {
      var size := |matrix|;
      ghost var g0, reserved0 := matrix, functionModules;
      var corners := FinderCorners(size);
      for k := 0 to 3
        invariant IsSquare(matrix, size)
        invariant matrix == ApplyWrites(g0, FinderRun(corners, k))
        invariant functionModules == reserved0 + Coords(FinderRun(corners, k))
      {
        var (r, c) := corners[k];
        assert 0 <= r <= size - 7 && 0 <= c <= size - 7;
        WritesThen(g0, reserved0, FinderRun(corners, k), FinderWrites(r, c));
        PlaceFinderPattern(r, c);
      }
    }

    /** The dark module of `apply_patterns`: (size - 8, 8) set to 1 and marked. */
    method PlaceDarkModule()
      requires IsSquare(matrix, |matrix|) && |matrix| >= 9
      modifies this
      ensures IsSquare(matrix, |old(matrix)|)
      ensures var w := DarkModuleWrite(|old(matrix)|);
        matrix == Set(old(matrix), w.row, w.col, w.value) && functionModules == old(functionModules) + {At(w)}
    {
      var size := |matrix|;
      matrix := matrix[size - 8 := matrix[size - 8][8 := 1]];
      MarkFunction(size - 8, 8);
    }

    /**
     * `place_format_info(m, mask_id)`: the fifteen digits of the format
     * string for `mask_id` along `pos1`, then again along `pos2`.
     */
    method PlaceFormatInfo(maskId: int)
      requires IsSquare(matrix, |matrix|) && |matrix| >= 9 && -8 <= maskId < 8
      modifies this
      ensures IsSquare(matrix, |old(matrix)|)
      ensures matrix == ApplyWrites(old(matrix), FormatWrites(|old(matrix)|, maskId))
      ensures functionModules == old(functionModules) + Coords(FormatWrites(|old(matrix)|, maskId))
    {
      var size := |matrix|;
      ghost var g0, reserved0 := matrix, functionModules;
      var run1 := FormatRun(FormatPositions1(), maskId);
      var run2 := FormatRun(FormatPositions2(size), maskId);
      FormatRunsInBounds(size, maskId);
      WritesThen(g0, reserved0, run1, run2);
      PerformWrites(run1);
      PerformWrites(run2);
    }

    /**
     * `map_data(m, full_cw)`: the outer loop over column pairs, right to
     * left, stepping over column 6 and flipping the sweep direction after
     * each pair.
     */
    method MapData(fullCw: seq<Byte>)
      requires IsSquare(matrix, |matrix|)
      modifies this
      ensures IsSquare(matrix, |old(matrix)|)
      ensures matrix == MapDataGrid(old(matrix), fullCw)
      ensures functionModules == old(functionModules)
    {
      var bits := ToBitstring(fullCw);
      var bitIdx := 0;
      var up := true;
      var size := |matrix|;
      var col := size - 1;
      ghost var g0, reserved0 := matrix, functionModules;
      ghost var done: seq<Coord> := [];
      while col > 0
        invariant col < size && IsSquare(matrix, size) && functionModules == reserved0
        invariant done + Walk(size, col, up) == MapOrder(size)
        invariant FillState(matrix, bitIdx) == Fill(g0, bits, done)
        decreases col
      {
        if col == 6 {
          WalkSkipSix(size, up);
          col := col - 1;
          continue;
        }
        bitIdx := SweepPair(bits, col, up, bitIdx, g0, done);
        WalkStep(size, col, up, done);
        done := done + PairCells(size, col, up, size);
        up := !up;
        col := col - 2;
      }
      assert done + Walk(size, col, up) == done + [] == done;
    }

    /**
     * One column pair of `map_data`: the rows in sweep order, and in each row
     * the cells (r, col) and (r, col - 1).
     */
    method SweepPair(bits: string, col: int, up: bool, bitIdx0: nat, ghost g0: Grid, ghost done: seq<Coord>)
      returns (bitIdx: nat)
      requires IsSquare(matrix, |matrix|) && 1 <= col < |matrix|
      requires FillState(matrix, bitIdx0) == Fill(g0, bits, done)
      modifies this
      ensures IsSquare(matrix, |old(matrix)|) && functionModules == old(functionModules)
      ensures FillState(matrix, bitIdx) == Fill(g0, bits, done + PairCells(|old(matrix)|, col, up, |old(matrix)|))
    {
      var size := |matrix|;
      bitIdx := bitIdx0;
      var t := 0;
      ghost var cells := done;
      assert done + PairCells(size, col, up, 0) == done;
      while t < size
        invariant t <= size && IsSquare(matrix, size) && functionModules == old(functionModules)
        invariant cells == done + PairCells(size, col, up, t)
        invariant FillState(matrix, bitIdx) == Fill(g0, bits, cells)
      {
        var r := SweepRow(size, up, t);
        bitIdx := VisitRow(bits, r, col, bitIdx, g0, cells);
        PairStep(size, col, up, t, done);
        cells := cells + [(r, col)] + [(r, col - 1)];
        t := t + 1;
      }
    }

    /** One row of a column pair: the cells (r, col) and then (r, col - 1). */
    method VisitRow(bits: string, r: int, col: int, bitIdx0: nat, ghost g0: Grid, ghost cells: seq<Coord>)
      returns (bitIdx: nat)
      requires IsSquare(matrix, |matrix|) && 0 <= r < |matrix| && 1 <= col < |matrix|
      requires FillState(matrix, bitIdx0) == Fill(g0, bits, cells)
      modifies this
      ensures IsSquare(matrix, |old(matrix)|) && functionModules == old(functionModules)
      ensures FillState(matrix, bitIdx) == Fill(g0, bits, cells + [(r, col)] + [(r, col - 1)])
    {
      bitIdx := VisitCell(bits, r, col, bitIdx0);
      FillSnoc(g0, bits, cells, (r, col));
      bitIdx := VisitCell(bits, r, col - 1, bitIdx);
      FillSnoc(g0, bits, cells + [(r, col)], (r, col - 1));
    }

    /**
     * The body of `map_data`'s inner loop for cell (r, c): an unset cell
     * takes the next bit, or 0 once the bits are used up.
     */
    method VisitCell(bits: string, r: int, c: int, bitIdx: nat) returns (next: nat)
      requires 0 <= r < |matrix| && 0 <= c < |matrix[r]|
      modifies this
      ensures FillState(matrix, next) == Visit(FillState(old(matrix), bitIdx), bits, (r, c))
      ensures IsSquare(old(matrix), |old(matrix)|) ==> IsSquare(matrix, |old(matrix)|)
      ensures functionModules == old(functionModules)
    {
      next := bitIdx;
      if matrix[r][c] == UNSET {
        if bitIdx < |bits| {
          matrix := matrix[r := matrix[r][c := DigitValue(bits[bitIdx])]];
          next := bitIdx + 1;
        } else {
          matrix := matrix[r := matrix[r][c := 0]];
        }
      }
    }

    /** `apply_mask(m, mask_id)`: the loops over rows and columns. */
    method ApplyMask(maskId: int)
      requires IsSquare(matrix, |matrix|)
      modifies this
      ensures matrix == Masked(old(matrix), functionModules, maskId)
      ensures functionModules == old(functionModules)
    {
      var size := |matrix|;
      ghost var g0 := matrix;
      var r := 0;
      while r < size
        invariant r <= size && |matrix| == size && functionModules == old(functionModules)
        invariant forall i :: 0 <= i < r ==> matrix[i] == MaskedRow(g0[i], i, functionModules, maskId)
        invariant forall i :: r <= i < size ==> matrix[i] == g0[i]
      {
        MaskRow(r, maskId);
        r := r + 1;
      }
    }

    /** Row `r` of `apply_mask`: `m[r][c] ^= 1` on each unreserved cell where the mask predicate holds. */
    method MaskRow(r: int, maskId: int)
      requires 0 <= r < |matrix|
      modifies this
      ensures matrix == old(matrix)[r := MaskedRow(old(matrix)[r], r, functionModules, maskId)]
      ensures functionModules == old(functionModules)
    {
      ghost var row0 := matrix[r];
      var c := 0;
      while c < |matrix[r]|
        invariant |matrix| == |old(matrix)| && c <= |matrix[r]| == |row0|
        invariant matrix == old(matrix)[r := matrix[r]] && functionModules == old(functionModules)
        invariant forall j :: 0 <= j < |row0| ==> matrix[r][j] == if j < c then MaskedRow(row0, r, functionModules, maskId)[j] else row0[j]
      {
        if (r, c) !in functionModules && Condition(maskId, r, c) {
          matrix := matrix[r := matrix[r][c := Xor1(matrix[r][c])]];
        }
        c := c + 1;
      }
      assert matrix[r] == MaskedRow(row0, r, functionModules, maskId);
    }
  }
}

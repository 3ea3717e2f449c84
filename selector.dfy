/**
 * The mask selection of `main()` and of `generate_v1_matrix_and_image`:
 * eight trials, one per mask id in ascending order, each on a fresh grid
 * and a fresh `FUNCTION_MODULES`, keeping the first trial with the
 * strictly lowest penalty score.
 */
module Selector {
  import opened Wrappers
  import opened Bits
  import opened Params
  import opened Grid
  import opened Patterns
  import opened Placement
  import opened Masking
  import opened Penalty
  import opened Builder
  import opened Encoder

  /** The grid after `apply_patterns` and `place_format_info` on a fresh grid and reserved set. */
  function FormattedGrid(size: nat, version: int, maskId: int): Grid
    requires -8 <= maskId < 8
  {
    ApplyWrites(PatternsGrid(size, version), FormatWrites(size, maskId))
  }

  /** `FUNCTION_MODULES` after `apply_patterns` and `place_format_info` on fresh state. */
  function TrialReserved(size: nat, version: int, maskId: int): set<Coord>
    requires -8 <= maskId < 8
  {
    PatternsReserved(size, version) + Coords(FormatWrites(size, maskId))
  }

  /** The grid of trial `maskId` after `map_data`, before the mask. */
  function UnmaskedGrid(size: nat, version: int, fullCw: seq<Byte>, maskId: int): Grid
    requires -8 <= maskId < 8
  {
    MapDataGrid(FormattedGrid(size, version, maskId), fullCw)
  }

  /** The grid trial `maskId` scores: every stage of the pipeline, the mask last. */
  function TrialGrid(size: nat, version: int, fullCw: seq<Byte>, maskId: int): (g: Grid)
    requires -8 <= maskId < 8
    ensures IsSquare(g, size)
  {
    var h := UnmaskedGrid(size, version, fullCw, maskId);
    assert IsSquare(FormattedGrid(size, version, maskId), size);
    Masked(h, TrialReserved(size, version, maskId), maskId)
  }

  /** The penalty score of trial `maskId`. */
  function TrialScore(size: nat, version: int, fullCw: seq<Byte>, maskId: int): nat
    requires size > 0 && -8 <= maskId < 8
  {
    PenaltyScore(TrialGrid(size, version, fullCw, maskId))
  }

  /**
   * After `apply_patterns` and `place_format_info` every cell is unset, 0 or
   * 1, and every cell of column 6 is set: the timing pattern and the
   * separators reserve all of it.
   */
  lemma FormattedCell(size: nat, version: int, maskId: int, r: int, c: int)
    requires size >= 17 && -8 <= maskId < 8 && InBounds(size, r, c)
    ensures FormattedGrid(size, version, maskId)[r][c] in {UNSET, 0, 1}
    ensures c == 6 ==> FormattedGrid(size, version, maskId)[r][c] in {0, 1}
  {
    var p, reserved := PatternsGrid(size, version), PatternsReserved(size, version);
    var ws := FormatWrites(size, maskId);
    assert p[r][c] in {UNSET, 0, 1} && (c == 6 ==> p[r][c] in {0, 1}) by {
      PatternsCharacterised(size, version);
      PatternsReservedExactly(p, reserved, size, version, r, c);
      if c == 6 {
        ColumnSixReserved(reserved, size, version, r);
      }
    }
    FormatWritesBinary(size, maskId);
    LookupValueIn(ws, {0, 1}, r, c);
    ApplyWritesCell(p, ws, r, c);
    var v := ApplyWrites(p, ws)[r][c];
    assert v in {UNSET, 0, 1} && (c == 6 ==> v in {0, 1}) by {
      match Lookup(ws, r, c)
      case Some(x) => assert v == x;
      case None => assert v == p[r][c];
    }
    assert FormattedGrid(size, version, maskId)[r][c] == v;
  }

  /**
   * After `map_data` no cell of the grid is left at -1: every cell outside
   * column 6 is on the walk, and column 6 is already set.
   */
  lemma UnmaskedBinary(size: nat, version: int, fullCw: seq<Byte>, maskId: int)
    requires size >= 17 && size % 2 == 1 && -8 <= maskId < 8
    ensures forall r, c :: InBounds(size, r, c) ==> UnmaskedGrid(size, version, fullCw, maskId)[r][c] in {0, 1}
  {
    var f := FormattedGrid(size, version, maskId);
    assert IsSquare(f, size);
    forall r, c | 0 <= r < |f| && 0 <= c < |f[r]| ensures f[r][c] in {UNSET, 0, 1} {
      FormattedCell(size, version, maskId, r, c);
    }
    var bits := ToBitstring(fullCw);
    FillSetsVisited(f, bits, MapOrder(size));
    forall r, c | InBounds(size, r, c) ensures UnmaskedGrid(size, version, fullCw, maskId)[r][c] in {0, 1} {
      if c == 6 {
        FormattedCell(size, version, maskId, r, c);
        FillKeepsSetCells(f, bits, MapOrder(size), r, c);
      } else {
        MapOrderCovers(size, r, c);
      }
    }
  }

  /** Every module of a trial's grid is light or dark, whichever mask is applied. */
  lemma TrialBinary(size: nat, version: int, fullCw: seq<Byte>, maskId: int)
    requires size >= 17 && size % 2 == 1 && -8 <= maskId < 8
    ensures forall r, c :: InBounds(size, r, c) ==> TrialGrid(size, version, fullCw, maskId)[r][c] in {0, 1}
  {
    UnmaskedBinary(size, version, fullCw, maskId);
    var h := UnmaskedGrid(size, version, fullCw, maskId);
    forall r, c | InBounds(size, r, c) ensures TrialGrid(size, version, fullCw, maskId)[r][c] in {0, 1} {
      MaskedCell(h, TrialReserved(size, version, maskId), maskId, r, c);
    }
  }

  /**
   * One trial of the selection loop: `FUNCTION_MODULES = set()`, a fresh
   * `initialise_matrix(size)`, then `apply_patterns`, `place_format_info`,
   * `map_data`, `apply_mask` and `score_penalty`, in that order. Nothing
   * left over from an earlier trial reaches the result.
   */
  method RunTrial(symbol: Symbol, size: nat, version: int, fullCw: seq<Byte>, maskId: int) returns (score: int)
    requires size >= 9 && 0 <= maskId < 8
    modifies symbol
    ensures symbol.matrix == TrialGrid(size, version, fullCw, maskId)
    ensures symbol.functionModules == TrialReserved(size, version, maskId)
    ensures score == TrialScore(size, version, fullCw, maskId)
  {
    symbol.ResetFunctionModules();
    symbol.matrix := InitialiseMatrix(size);
    ghost var g0, reserved0 := symbol.matrix, symbol.functionModules;
    symbol.ApplyPatterns(version);
    assert symbol.matrix == PatternsGrid(size, version) && symbol.functionModules == PatternsReserved(size, version);
    symbol.PlaceFormatInfo(maskId);
    assert symbol.matrix == FormattedGrid(size, version, maskId);
    symbol.MapData(fullCw);
    assert symbol.matrix == UnmaskedGrid(size, version, fullCw, maskId);
    symbol.ApplyMask(maskId);
    assert symbol.matrix == TrialGrid(size, version, fullCw, maskId);
    score := ScorePenalty(symbol.matrix);
  }

  /** The scores of the eight trials, indexed by mask id. */
  ghost function TrialScoreTable(size: nat, version: int, fullCw: seq<Byte>): (t: seq<int>)
    requires size > 0
    ensures |t| == 8 && forall id :: 0 <= id < 8 ==> t[id] == TrialScore(size, version, fullCw, id)
  {
    seq(8, id requires 0 <= id < 8 => TrialScore(size, version, fullCw, id))
  }

  /**
   * `best` is the first position of a least element of `scores`, and `value`
   * is that element.
   */
  ghost predicate IsFirstMinimum(scores: seq<int>, best: int, value: int)
  {
    && 0 <= best < |scores|
    && value == scores[best]
    && (forall id :: 0 <= id < |scores| ==> value <= scores[id])
    && (forall id :: 0 <= id < best ==> value < scores[id])
  }

  /** One step of the selection: a new score replaces the best only when strictly lower. */
  lemma FirstMinimumStep(scores: seq<int>, best: int, value: int, score: int)
    requires IsFirstMinimum(scores, best, value)
    ensures score < value ==> IsFirstMinimum(scores + [score], |scores|, score)
    ensures score >= value ==> IsFirstMinimum(scores + [score], best, value)
  {
    var next := scores + [score];
    assert forall id :: 0 <= id < |scores| ==> next[id] == scores[id];
  }

  /**
   * The loop's bookkeeping over a table of scores: `scores` is the part of
   * `table` seen so far, `lowest` is None before the first score, and
   * afterwards `bestMask` is the first position of the least score seen.
   */
  ghost predicate Scanned(table: seq<int>, scores: seq<int>, lowest: Option<int>, bestMask: int)
  {
    && |scores| <= |table| && scores == table[..|scores|]
    && (lowest.None? <==> |scores| == 0)
    && (lowest.Some? ==> IsFirstMinimum(scores, bestMask, lowest.value))
  }

  /** Looking at the next score of the table keeps `Scanned`. */
  lemma ScannedStep(table: seq<int>, scores: seq<int>, lowest: Option<int>, bestMask: int, score: int)
    requires Scanned(table, scores, lowest, bestMask) && |scores| < |table| && score == table[|scores|]
    ensures var better := lowest.None? || score < lowest.value;
      Scanned(table, scores + [score], if better then Some(score) else lowest, if better then |scores| else bestMask)
  {
    assert scores + [score] == table[..|scores| + 1];
    if lowest.Some? {
      FirstMinimumStep(scores, bestMask, lowest.value, score);
    } else {
      assert IsFirstMinimum([] + [score], 0, score);
    }
  }

  /**
   * The state of the selection loop after the trials recorded in `scores`:
   * the scores are those of the first trials, and once there is a lowest
   * score `best` holds the grid of the trial that scored it.
   */
  ghost predicate Selection(size: nat, version: int, fullCw: seq<Byte>, scores: seq<int>,
                            lowest: Option<int>, bestMask: int, best: Option<Grid>)
  {
    && size > 0
    && Scanned(TrialScoreTable(size, version, fullCw), scores, lowest, bestMask)
    && (lowest.Some? ==> 0 <= bestMask < 8 && best == Some(TrialGrid(size, version, fullCw, bestMask)))
  }

  /** One iteration of the loop keeps `Selection`. */
  lemma SelectionStep(size: nat, version: int, fullCw: seq<Byte>, scores: seq<int>,
                      lowest: Option<int>, bestMask: int, best: Option<Grid>, score: int, grid: Grid)
    requires Selection(size, version, fullCw, scores, lowest, bestMask, best) && |scores| < 8
    requires score == TrialScore(size, version, fullCw, |scores|)
    requires grid == TrialGrid(size, version, fullCw, |scores|)
    ensures var better := lowest.None? || score < lowest.value;
      Selection(size, version, fullCw, scores + [score],
        if better then Some(score) else lowest,
        if better then |scores| else bestMask,
        if better then Some(grid) else best)
  {
    var table := TrialScoreTable(size, version, fullCw);
    assert score == table[|scores|];
    ScannedStep(table, scores, lowest, bestMask, score);
  }

  /** The first minimum of all eight scores, stated against the trials themselves. */
  lemma FirstMinimumOfTrials(size: nat, version: int, fullCw: seq<Byte>, scores: seq<int>, best: int, value: int)
    requires size > 0 && |scores| == 8 && scores == TrialScoreTable(size, version, fullCw)[..8]
    requires IsFirstMinimum(scores, best, value)
    ensures 0 <= best < 8 && value == TrialScore(size, version, fullCw, best)
    ensures forall id :: 0 <= id < 8 ==> value <= TrialScore(size, version, fullCw, id)
    ensures forall id :: 0 <= id < best ==> value < TrialScore(size, version, fullCw, id)
  {
    var table := TrialScoreTable(size, version, fullCw);
    forall id | 0 <= id < 8 ensures value <= TrialScore(size, version, fullCw, id) {
      assert scores[id] == table[id];
    }
    forall id | 0 <= id < best ensures value < TrialScore(size, version, fullCw, id) {
      assert scores[id] == table[id];
    }
    assert scores[best] == table[best];
  }

  /**
   * What the selection returns: the least mask id whose trial has the least
   * score of all eight, that score, and that trial's grid.
   */
  ghost predicate BestTrial(size: nat, version: int, fullCw: seq<Byte>, mask: int, score: int, matrix: Grid)
    requires size > 0
  {
    && 0 <= mask < 8
    && matrix == TrialGrid(size, version, fullCw, mask)
    && score == TrialScore(size, version, fullCw, mask)
    && (forall id :: 0 <= id < 8 ==> score <= TrialScore(size, version, fullCw, id))
    && (forall id :: 0 <= id < mask ==> score < TrialScore(size, version, fullCw, id))
  }

  /** The result of the selection is determined by the trials: at most one mask, score and grid qualify. */
  lemma BestTrialUnique(size: nat, version: int, fullCw: seq<Byte>,
                        mask1: int, score1: int, matrix1: Grid, mask2: int, score2: int, matrix2: Grid)
    requires size > 0
    requires BestTrial(size, version, fullCw, mask1, score1, matrix1)
    requires BestTrial(size, version, fullCw, mask2, score2, matrix2)
    ensures mask1 == mask2 && score1 == score2 && matrix1 == matrix2
  {
    assert score1 <= score2 && score2 <= score1;
  }

  /**
   * The loop `for mask_id in range(8)`: all eight trials run, and a trial
   * replaces the best only with a strictly lower score, so the result is the
   * least mask id of minimal score and its grid. `lowest_score` starts as
   * infinity, modelled as None; `best_matrix` starts as None.
   */
  method SelectMask(size: nat, version: int, fullCw: seq<Byte>) returns (bestMask: int, lowestScore: int, bestMatrix: Grid)
    requires size >= 9
    ensures BestTrial(size, version, fullCw, bestMask, lowestScore, bestMatrix)
    ensures IsSquare(bestMatrix, size)
    ensures size >= 17 && size % 2 == 1 ==> forall r, c :: InBounds(size, r, c) ==> bestMatrix[r][c] in {0, 1}
  {
    var symbol := new Symbol();
    bestMask := 0;
    var lowest: Option<int> := None;
    var best: Option<Grid> := None;
    ghost var scores: seq<int> := [];
    for maskId := 0 to 8
      invariant |scores| == maskId
      invariant Selection(size, version, fullCw, scores, lowest, bestMask, best)
    {
      var score := RunTrial(symbol, size, version, fullCw, maskId);
      SelectionStep(size, version, fullCw, scores, lowest, bestMask, best, score, symbol.matrix);
      scores := scores + [score];
      if lowest.None? || score < lowest.value {
        bestMask := maskId;
        lowest := Some(score);
        best := Some(symbol.matrix);
      }
    }
    lowestScore := lowest.value;
    bestMatrix := best.value;
    FirstMinimumOfTrials(size, version, fullCw, scores, bestMask, lowestScore);
    if size >= 17 && size % 2 == 1 {
      TrialBinary(size, version, fullCw, bestMask);
    }
  }
}

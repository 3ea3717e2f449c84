/**
 * `score_penalty(m)`: the four evaluation rules of the source's mask
 * selection, modelled on section 7.8.3 of ISO/IEC 18004 but not equal to
 * it. Rule 1 charges every start index of five equal modules, not every
 * maximal run; rule 4 floors the dark percentage before subtracting 50.
 *
 * The rules are first given as functions of the grid (`PenaltyScore`), then
 * `ScorePenalty` computes the score with the source's loops and is proved
 * to return that value.
 */
module Penalty {
  import opened Grid

  /** `pattern1`: dark-light-dark-dark-dark-light-dark followed by four light modules. */
  const FINDER_LIKE: seq<int> := [1, 0, 1, 1, 1, 0, 1, 0, 0, 0, 0]
  /** `pattern2`: the same eleven modules in the opposite order. */
  const FINDER_LIKE_REVERSED: seq<int> := [0, 0, 0, 0, 1, 0, 1, 1, 1, 0, 1]

  /** The number of start indices in `range(n - (w - 1))`: windows of width `w` in a line of `n`. */
  function WindowCount(n: int, w: nat): (k: nat)
    ensures k > 0 ==> k + w - 1 == n
    ensures n >= w ==> k > 0
  {
    if n >= w then n - w + 1 else 0
  }

  /** Column `c` of a square grid, top to bottom. */
  function Column(m: Grid, c: int): (col: seq<int>)
    requires IsSquare(m, |m|) && 0 <= c < |m|
    ensures |col| == |m|
  {
    seq(|m|, r requires 0 <= r < |m| => m[r][c])
  }

  /** The columns of a square grid, left to right. */
  function Transpose(m: Grid): (t: Grid)
    requires IsSquare(m, |m|)
    ensures IsSquare(t, |m|)
  {
    seq(|m|, c requires 0 <= c < |m| => Column(m, c))
  }

  // Rule 1: five or more equal modules in a row or a column.

  /** Five equal modules start at `i`. */
  predicate FiveEqual(line: seq<int>, i: int)
    requires 0 <= i && i + 5 <= |line|
  {
    line[i] == line[i + 1] && line[i + 1] == line[i + 2] && line[i + 2] == line[i + 3] && line[i + 3] == line[i + 4]
  }

  /**
   * `run_len` when the inner `while` stops, having started at `k`: the run
   * grows while the next module exists and equals the one at `i`.
   */
  function RunLength(line: seq<int>, i: int, k: nat): (len: nat)
    requires 0 <= i && i + k <= |line|
    ensures k <= len && i + len <= |line|
    decreases |line| - i - k
  {
    if i + k < |line| && line[i + k] == line[i] then RunLength(line, i, k + 1) else k
  }

  /** What the start index `i` adds: `3 + (run_len - 5)` when five equal modules start there. */
  function RunPenaltyAt(line: seq<int>, i: int): nat
    requires 0 <= i && i + 5 <= |line|
  {
    if FiveEqual(line, i) then 3 + (RunLength(line, i, 5) - 5) else 0
  }

  /** What the first `k` start indices of a line add. */
  function RunPenaltyUpTo(line: seq<int>, k: nat): nat
    requires k <= WindowCount(|line|, 5)
  {
    if k == 0 then 0 else RunPenaltyUpTo(line, k - 1) + RunPenaltyAt(line, k - 1)
  }

  /** Rule 1 for one row or column. */
  function RunPenalty(line: seq<int>): nat {
    RunPenaltyUpTo(line, WindowCount(|line|, 5))
  }

  /** Rule 1 summed over a sequence of lines. */
  function LinesRunPenalty(lines: seq<seq<int>>): nat {
    if lines == [] then 0 else LinesRunPenalty(lines[..|lines| - 1]) + RunPenalty(lines[|lines| - 1])
  }

  // Rule 2: 2 x 2 blocks of one colour.

  /** The 2 x 2 block with top-left corner (r, c) is uniform. */
  predicate UniformBlock(m: Grid, r: int, c: int)
    requires IsSquare(m, |m|) && 0 <= r && r + 1 < |m| && 0 <= c && c + 1 < |m|
  {
    m[r][c] == m[r][c + 1] && m[r][c + 1] == m[r + 1][c] && m[r + 1][c] == m[r + 1][c + 1]
  }

  /** Uniform blocks with top row `r` among the first `k` left columns. */
  function BlocksInRow(m: Grid, r: int, k: nat): nat
    requires IsSquare(m, |m|) && 0 <= r && r + 1 < |m| && k <= WindowCount(|m|, 2)
  {
    if k == 0 then 0 else BlocksInRow(m, r, k - 1) + (if UniformBlock(m, r, k - 1) then 1 else 0)
  }

  /** Uniform blocks whose top row is one of the first `k`. */
  function Blocks(m: Grid, k: nat): nat
    requires IsSquare(m, |m|) && k <= WindowCount(|m|, 2)
  {
    if k == 0 then 0 else Blocks(m, k - 1) + BlocksInRow(m, k - 1, WindowCount(|m|, 2))
  }

  // Rule 3: the 1:1:3:1:1 finder-like pattern with four light modules on one side.

  /** The eleven modules from `i` are `pattern1` or `pattern2`. */
  predicate FinderLikeAt(line: seq<int>, i: int)
    requires 0 <= i && i + 11 <= |line|
  {
    line[i..i + 11] == FINDER_LIKE || line[i..i + 11] == FINDER_LIKE_REVERSED
  }

  /** Finder-like windows among the first `k` start indices of a line. */
  function FinderLikeUpTo(line: seq<int>, k: nat): nat
    requires k <= WindowCount(|line|, 11)
  {
    if k == 0 then 0 else FinderLikeUpTo(line, k - 1) + (if FinderLikeAt(line, k - 1) then 1 else 0)
  }

  function FinderLikeCount(line: seq<int>): nat {
    FinderLikeUpTo(line, WindowCount(|line|, 11))
  }

  /** Finder-like windows summed over a sequence of lines. */
  function LinesFinderLike(lines: seq<seq<int>>): nat {
    if lines == [] then 0 else LinesFinderLike(lines[..|lines| - 1]) + FinderLikeCount(lines[|lines| - 1])
  }

  // Rule 4: the proportion of dark modules.

  /** `sum(cell == 1 for cell in row)`. */
  function DarkInRow(row: seq<int>): (n: nat)
    ensures n <= |row|
  {
    if row == [] then 0 else DarkInRow(row[..|row| - 1]) + (if row[|row| - 1] == 1 then 1 else 0)
  }

  /** `sum(cell == 1 for row in m for cell in row)`. */
  function Dark(m: Grid): nat {
    if m == [] then 0 else Dark(m[..|m| - 1]) + DarkInRow(m[|m| - 1])
  }

  function Abs(x: int): nat {
    if x < 0 then -x else x
  }

  /**
   * `abs(dark * 100 // total - 50) // 5 * 10`. Both divisions have a
   * non-negative dividend and a positive divisor, where Python's floor
   * division and Dafny's division agree.
   */
  function BalancePenalty(dark: nat, total: nat): nat
    requires total > 0
  {
    10 * (Abs(dark * 100 / total - 50) / 5)
  }

  /** The value `score_penalty(m)` returns. */
  function PenaltyScore(m: Grid): nat
    requires IsSquare(m, |m|) && |m| > 0
  {
    LinesRunPenalty(m) + LinesRunPenalty(Transpose(m))
      + 3 * Blocks(m, WindowCount(|m|, 2))
      + 40 * (LinesFinderLike(m) + LinesFinderLike(Transpose(m)))
      + BalancePenalty(Dark(m), |m| * |m|)
  }

  // Properties of the rules.

  /**
   * The inner `while` of rule 1 stops at the end of the maximal run of
   * `line[i]` from `i`: every module before the stop equals `line[i]` and
   * the one at the stop, if any, differs.
   */
  lemma {:induction false} RunLengthMaximal(line: seq<int>, i: int, k: nat)
    requires 0 <= i && i + k <= |line|
    requires forall j :: i <= j < i + k ==> line[j] == line[i]
    ensures var len := RunLength(line, i, k);
      && (forall j :: i <= j < i + len ==> line[j] == line[i])
      && (i + len == |line| || line[i + len] != line[i])
    decreases |line| - i - k
  {
    if i + k < |line| && line[i + k] == line[i] {
      RunLengthMaximal(line, i, k + 1);
    }
  }

  /**
   * A start index adds nothing unless five equal modules start there, and
   * then adds the length of the maximal run from it, minus two.
   */
  lemma RunPenaltyAtRun(line: seq<int>, i: int)
    requires 0 <= i && i + 5 <= |line|
    ensures RunPenaltyAt(line, i) > 0 <==> FiveEqual(line, i)
    ensures FiveEqual(line, i) ==> RunPenaltyAt(line, i) + 2 == RunLength(line, i, 5) >= 5
  {
  }

  /** In a line of `n` equal modules, the run from index `i` reaches the end. */
  lemma {:induction false} ConstantRunLength(line: seq<int>, i: int, k: nat)
    requires 0 <= i && i + k <= |line|
    requires forall j :: 0 <= j < |line| ==> line[j] == line[0]
    ensures RunLength(line, i, k) == |line| - i
    decreases |line| - i - k
  {
    if i + k < |line| {
      ConstantRunLength(line, i, k + 1);
    }
  }

  lemma {:induction false} ConstantRunPrefix(line: seq<int>, k: nat)
    requires |line| >= 5 && k <= |line| - 4
    requires forall j :: 0 <= j < |line| ==> line[j] == line[0]
    ensures 2 * RunPenaltyUpTo(line, k) == k * (2 * |line| - 3 - k)
  {
    if k > 0 {
      var n := |line|;
      ConstantRunPrefix(line, k - 1);
      ConstantRunLength(line, k - 1, 5);
      assert RunPenaltyAt(line, k - 1) == n - k - 1;
      assert 2 * RunPenaltyUpTo(line, k) == (k - 1) * (2 * n - 3 - (k - 1)) + 2 * (n - k - 1);
      PrefixStep(n, k);
    }
  }

  lemma PrefixStep(n: int, k: int)
    ensures (k - 1) * (2 * n - 3 - (k - 1)) + 2 * (n - k - 1) == k * (2 * n - 3 - k)
  {
    assert (k - 1) * (2 * n - 2 - k) == k * (2 * n - 2 - k) - (2 * n - 2 - k);
    assert k * (2 * n - 2 - k) == k * (2 * n - 3 - k) + k;
  }

  /**
   * Overlapping starts all count: a row or column of `n >= 5` equal modules
   * adds (n - 4)(n + 1) / 2, where one maximal run of `n` would add n - 2.
   */
  lemma ConstantLineRuns(line: seq<int>)
    requires |line| >= 5
    requires forall j :: 0 <= j < |line| ==> line[j] == line[0]
    ensures 2 * RunPenalty(line) == (|line| - 4) * (|line| + 1)
    ensures |line| > 5 ==> RunPenalty(line) > |line| - 2
  {
    var n := |line|;
    ConstantRunPrefix(line, n - 4);
    assert (n - 4) * (2 * n - 3 - (n - 4)) == (n - 4) * (n + 1);
    if n > 5 {
      assert (n - 4) * (n + 1) >= 2 * (n + 1);
    }
  }

  /**
   * Rule 2 over the first `k` columns of block row `r`: one per uniform
   * window, so none when no window is uniform and `k` when all are.
   */
  lemma {:induction false} BlocksInRowCount(m: Grid, r: int, k: nat)
    requires IsSquare(m, |m|) && 0 <= r && r + 1 < |m| && k <= WindowCount(|m|, 2)
    ensures BlocksInRow(m, r, k) <= k
    ensures BlocksInRow(m, r, k) == 0 <==> forall c :: 0 <= c < k ==> !UniformBlock(m, r, c)
    ensures BlocksInRow(m, r, k) == k <==> forall c :: 0 <= c < k ==> UniformBlock(m, r, c)
  {
    if k > 0 {
      BlocksInRowCount(m, r, k - 1);
    }
  }

  /**
   * Rule 2 over the first `k` block rows: at most one per window, none
   * exactly when no window is uniform, and every window exactly when all are.
   */
  lemma {:induction false} BlocksCount(m: Grid, k: nat)
    requires IsSquare(m, |m|) && k <= WindowCount(|m|, 2)
    ensures Blocks(m, k) <= k * WindowCount(|m|, 2)
    ensures Blocks(m, k) == 0 <==>
      forall r, c :: 0 <= r < k && 0 <= c < WindowCount(|m|, 2) ==> !UniformBlock(m, r, c)
    ensures Blocks(m, k) == k * WindowCount(|m|, 2) <==>
      forall r, c :: 0 <= r < k && 0 <= c < WindowCount(|m|, 2) ==> UniformBlock(m, r, c)
  {
    if k > 0 {
      var w := WindowCount(|m|, 2);
      BlocksCount(m, k - 1);
      BlocksInRowCount(m, k - 1, w);
      assert k * w == (k - 1) * w + w;
    }
  }

  /** A grid of `n >= 2` equal modules has `(n - 1)^2` uniform 2 x 2 windows. */
  lemma UniformGridBlocks(m: Grid)
    requires IsSquare(m, |m|) && |m| >= 2
    requires forall r, c :: 0 <= r < |m| && 0 <= c < |m| ==> m[r][c] == m[0][0]
    ensures Blocks(m, WindowCount(|m|, 2)) == (|m| - 1) * (|m| - 1)
  {
    var w := WindowCount(|m|, 2);
    BlocksCount(m, w);
    assert forall r, c :: 0 <= r < w && 0 <= c < w ==> UniformBlock(m, r, c);
  }

  /**
   * Rule 3 over the first `k` start indices of a line: at most one per
   * window, and none exactly when no window is finder-like.
   */
  lemma {:induction false} FinderLikeCountBounds(line: seq<int>, k: nat)
    requires k <= WindowCount(|line|, 11)
    ensures FinderLikeUpTo(line, k) <= k
    ensures FinderLikeUpTo(line, k) == 0 <==> forall i :: 0 <= i < k ==> !FinderLikeAt(line, i)
    ensures FinderLikeUpTo(line, k) == k <==> forall i :: 0 <= i < k ==> FinderLikeAt(line, i)
  {
    if k > 0 {
      FinderLikeCountBounds(line, k - 1);
    }
  }

  /** A line of equal modules has no finder-like window: both patterns hold a 0 and a 1. */
  lemma ConstantLineNoFinderLike(line: seq<int>)
    requires forall j :: 0 <= j < |line| ==> line[j] == line[0]
    ensures FinderLikeCount(line) == 0
  {
    var k := WindowCount(|line|, 11);
    forall i | 0 <= i < k
      ensures !FinderLikeAt(line, i)
    {
      var win := line[i..i + 11];
      assert win[0] == line[i] && win[1] == line[i + 1] && win[4] == line[i + 4];
    }
    FinderLikeCountBounds(line, k);
  }

  /** There are no more dark modules than modules. */
  lemma {:induction false} DarkAtMost(m: Grid, w: nat)
    requires forall r :: 0 <= r < |m| ==> |m[r]| == w
    ensures Dark(m) <= |m| * w
  {
    if m != [] {
      DarkAtMost(m[..|m| - 1], w);
      assert |m| * w == (|m| - 1) * w + w;
    }
  }

  /**
   * Rule 4 adds a multiple of 10 between 0 and 100, and nothing exactly when
   * the floored dark percentage lies in 46..54.
   */
  lemma BalancePenaltyBounds(dark: nat, total: nat)
    requires 0 < total && dark <= total
    ensures BalancePenalty(dark, total) % 10 == 0 && BalancePenalty(dark, total) <= 100
    ensures BalancePenalty(dark, total) == 0 <==> 46 <= dark * 100 / total <= 54
  {
    var p := dark * 100 / total;
    assert p <= 100 by {
      assert dark * 100 <= total * 100;
    }
  }

  // The scorer as the source computes it.

  /** The rule 1 loop over one row or column: every start index, then the `while` that measures the run. */
  method LineRuns(line: seq<int>) returns (penalty: nat)
    ensures penalty == RunPenalty(line)
  {
    var size := |line|;
    penalty := 0;
    var i := 0;
    while i < size - 4
      invariant 0 <= i <= WindowCount(size, 5)
      invariant penalty == RunPenaltyUpTo(line, i)
    {
      if line[i] == line[i + 1] && line[i + 1] == line[i + 2] && line[i + 2] == line[i + 3] && line[i + 3] == line[i + 4] {
        var runLen := 5;
        while i + runLen < size && line[i + runLen] == line[i]
          invariant 5 <= runLen && i + runLen <= size
          invariant RunLength(line, i, runLen) == RunLength(line, i, 5)
          decreases size - i - runLen
        {
          runLen := runLen + 1;
        }
        penalty := penalty + 3 + (runLen - 5);
      }
      i := i + 1;
    }
  }

  /** The rule 3 loop over one row or column: 40 for every finder-like window. */
  method LineFinderLike(line: seq<int>) returns (penalty: nat)
    ensures penalty == 40 * FinderLikeCount(line)
  {
    var size := |line|;
    penalty := 0;
    var i := 0;
    while i < size - 10
      invariant 0 <= i <= WindowCount(size, 11)
      invariant penalty == 40 * FinderLikeUpTo(line, i)
    {
      if line[i..i + 11] == FINDER_LIKE || line[i..i + 11] == FINDER_LIKE_REVERSED {
        penalty := penalty + 40;
      }
      i := i + 1;
    }
  }

  /** Rule 1: the loop over the rows, then the loop over the columns. */
  method RunsPenalty(m: Grid) returns (penalty: nat)
    requires IsSquare(m, |m|)
    ensures penalty == LinesRunPenalty(m) + LinesRunPenalty(Transpose(m))
  {
    var size := |m|;
    ghost var columns := Transpose(m);
    penalty := 0;
    for r := 0 to size
      invariant penalty == LinesRunPenalty(m[..r])
    {
      var p := LineRuns(m[r]);
      assert m[..r + 1][..r] == m[..r];
      penalty := penalty + p;
    }
    assert m[..size] == m;
    ghost var rows := penalty;
    for c := 0 to size
      invariant penalty == rows + LinesRunPenalty(columns[..c])
    {
      var p := LineRuns(Column(m, c));
      assert columns[..c + 1][..c] == columns[..c];
      penalty := penalty + p;
    }
    assert columns[..size] == columns;
  }

  /** Rule 2: 3 for every uniform 2 x 2 block, row by row. */
  method BlocksPenalty(m: Grid) returns (penalty: nat)
    requires IsSquare(m, |m|) && |m| > 0
    ensures penalty == 3 * Blocks(m, WindowCount(|m|, 2))
  {
    var size := |m|;
    penalty := 0;
    for r := 0 to size - 1
      invariant penalty == 3 * Blocks(m, r)
    {
      for c := 0 to size - 1
        invariant penalty == 3 * Blocks(m, r) + 3 * BlocksInRow(m, r, c)
      {
        if m[r][c] == m[r][c + 1] && m[r][c + 1] == m[r + 1][c] && m[r + 1][c] == m[r + 1][c + 1] {
          penalty := penalty + 3;
        }
      }
    }
  }

  /** Rule 3: the loop over the rows, then the loop over the columns. */
  method FinderLikePenalty(m: Grid) returns (penalty: nat)
    requires IsSquare(m, |m|)
    ensures penalty == 40 * (LinesFinderLike(m) + LinesFinderLike(Transpose(m)))
  {
    var size := |m|;
    ghost var columns := Transpose(m);
    penalty := 0;
    for r := 0 to size
      invariant penalty == 40 * LinesFinderLike(m[..r])
    {
      var p := LineFinderLike(m[r]);
      assert m[..r + 1][..r] == m[..r];
      penalty := penalty + p;
    }
    assert m[..size] == m;
    ghost var rows := penalty;
    for c := 0 to size
      invariant penalty == rows + 40 * LinesFinderLike(columns[..c])
    {
      var p := LineFinderLike(Column(m, c));
      assert columns[..c + 1][..c] == columns[..c];
      penalty := penalty + p;
    }
    assert columns[..size] == columns;
  }

  /**
   * `score_penalty(m)`: rules 1 to 3 in the source's order, then rule 4 on
   * the dark proportion. An empty grid is excluded: its `total` of 0 would
   * make rule 4 divide by zero.
   */
  method ScorePenalty(m: Grid) returns (score: int)
    requires IsSquare(m, |m|) && |m| > 0
    ensures score == PenaltyScore(m)
  {
    var size := |m|;
    score := 0;
    var runs := RunsPenalty(m);
    score := score + runs;
    var blocks := BlocksPenalty(m);
    score := score + blocks;
    var finderLike := FinderLikePenalty(m);
    score := score + finderLike;
    var dark := Dark(m);
    var total := size * size;
    var k := Abs(dark * 100 / total - 50) / 5;
    score := score + k * 10;
  }
}

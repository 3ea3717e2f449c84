/**
 * The function patterns `apply_patterns` stamps and the format information
 * `place_format_info` writes, each as the list of writes the source performs
 * in its loop order, with closed forms of the values they leave behind.
 */
module Patterns {
  import opened Wrappers
  import opened Bits
  import opened Grid
  import opened Params

  /** The 7 x 7 glyph of `place_finder_pattern`. */
  const FINDER: seq<seq<int>> := [
    [1, 1, 1, 1, 1, 1, 1],
    [1, 0, 0, 0, 0, 0, 1],
    [1, 0, 1, 1, 1, 0, 1],
    [1, 0, 1, 1, 1, 0, 1],
    [1, 0, 1, 1, 1, 0, 1],
    [1, 0, 0, 0, 0, 0, 1],
    [1, 1, 1, 1, 1, 1, 1]
  ]

  /** The 5 x 5 glyph of `place_alignment_pattern`. */
  const ALIGNMENT: seq<seq<int>> := [
    [1, 1, 1, 1, 1],
    [1, 0, 0, 0, 1],
    [1, 0, 1, 0, 1],
    [1, 0, 0, 0, 1],
    [1, 1, 1, 1, 1]
  ]

  /** `place_finder_pattern(m, r, c)`: the glyph row by row with its top-left corner at (r, c). */
  function FinderWrites(r: int, c: int): seq<Write> {
    Block(r, c, FINDER, 7)
  }

  /** The 25 cells `place_alignment_pattern(m, r, c)` considers, centred on (r, c). */
  function AlignmentCandidates(r: int, c: int): seq<Write> {
    Block(r - 2, c - 2, ALIGNMENT, 5)
  }

  /** `place_alignment_pattern(m, r, c)`: only cells inside the grid and not yet reserved are written. */
  function AlignmentWrites(size: int, reserved: set<Coord>, r: int, c: int): seq<Write> {
    Unreserved(AlignmentCandidates(r, c), size, reserved)
  }

  /** `sep_coords` of `apply_patterns`, in the order the source lists them. */
  function SeparatorCoords(size: int): seq<Coord> {
    seq(8, i => (i, 7)) + seq(8, i => (7, i))
      + seq(8, i => (i, size - 8)) + seq(8, i => (7, size - 1 - i))
      + seq(8, i => (size - 8, i)) + seq(8, i => (size - 1 - i, 7))
  }

  /** The separator cells described directly: the L-shaped borders of the three finder blocks. */
  predicate IsSeparator(size: int, r: int, c: int) {
    || (c == 7 && 0 <= r < 8) || (r == 7 && 0 <= c < 8)
    || (c == size - 8 && 0 <= r < 8) || (r == 7 && size - 8 <= c < size)
    || (r == size - 8 && 0 <= c < 8) || (c == 7 && size - 8 <= r < size)
  }

  /** The two timing writes for index `i`: first (6, i), then (i, 6), both `i % 2`. */
  function TimingPair(i: int): seq<Write> {
    [Write(6, i, i % 2), Write(i, 6, i % 2)]
  }

  /** The timing loop `for i in range(8, upTo)`. */
  function TimingWrites(upTo: int): seq<Write>
    decreases upTo
  {
    if upTo <= 8 then [] else TimingWrites(upTo - 1) + TimingPair(upTo - 1)
  }

  function DarkModuleWrite(size: int): Write {
    Write(size - 8, 8, 1)
  }

  /** The corners the finder loop of `apply_patterns` visits, in order. */
  function FinderCorners(size: int): seq<Coord> {
    [(0, 0), (0, size - 7), (size - 7, 0)]
  }

  /** The finder patterns at the first `k` corners. */
  function FinderRun(corners: seq<Coord>, k: nat): seq<Write>
    requires k <= |corners|
  {
    if k == 0 then [] else FinderRun(corners, k - 1) + FinderWrites(corners[k - 1].0, corners[k - 1].1)
  }

  /** Everything `apply_patterns` writes before the alignment pattern. */
  function FixedPatternWrites(size: int): seq<Write> {
    FinderRun(FinderCorners(size), 3)
      + Constant(SeparatorCoords(size), 0)
      + TimingWrites(size - 8)
      + [DarkModuleWrite(size)]
  }

  /** Whether `apply_patterns` places the alignment pattern at (18, 18). */
  predicate HasAlignment(size: int, version: int) {
    version >= 2 && size == 25
  }

  /**
   * All writes of `apply_patterns(m, version)` on a grid of the given size
   * whose reserved set is `reserved` when it starts.
   */
  function PatternWrites(size: int, version: int, reserved: set<Coord>): seq<Write> {
    var fixed := FixedPatternWrites(size);
    fixed + VersionAlignment(size, version, reserved + Coords(fixed))
  }

  /** The alignment step of `apply_patterns`, given the cells reserved when it starts. */
  function VersionAlignment(size: int, version: int, reserved: set<Coord>): seq<Write> {
    if HasAlignment(size, version) then AlignmentWrites(size, reserved, 18, 18) else []
  }

  predicate InBox(r0: int, c0: int, w: int, r: int, c: int) {
    r0 <= r < r0 + w && c0 <= c < c0 + w
  }

  /**
   * What `apply_patterns` leaves in cell (r, c) of a fresh grid before the
   * alignment pattern, region by region, the region written last first; None
   * for a cell it leaves unset.
   */
  function FixedValue(size: int, r: int, c: int): Option<int> {
    if (r, c) == (size - 8, 8) then Some(1)
    else if r == 6 && 8 <= c < size - 8 then Some(c % 2)
    else if c == 6 && 8 <= r < size - 8 then Some(r % 2)
    else if IsSeparator(size, r, c) then Some(0)
    else FinderValue(size, r, c)
  }

  /** What the finder loop leaves in cell (r, c), the corner visited last first. */
  function FinderValue(size: int, r: int, c: int): Option<int> {
    if InBox(size - 7, 0, 7, r, c) then Some(FinderCell(size - 7, 0, r, c))
    else if InBox(0, size - 7, 7, r, c) then Some(FinderCell(0, size - 7, r, c))
    else if InBox(0, 0, 7, r, c) then Some(FinderCell(0, 0, r, c))
    else None
  }

  /** The glyph value a finder pattern with its top-left corner at (r0, c0) puts in cell (r, c). */
  function FinderCell(r0: int, c0: int, r: int, c: int): int
    requires InBox(r0, c0, 7, r, c)
  {
    FINDER[r - r0][c - c0]
  }

  /** The glyph's module at (r, c) of the 5 x 5 alignment box with corner (16, 16). */
  function AlignmentCell(r: int, c: int): int
    requires InBox(16, 16, 5, r, c)
  {
    ALIGNMENT[r - 16][c - 16]
  }

  /** What `apply_patterns` leaves in cell (r, c) of a fresh grid, the alignment pattern included. */
  function PatternValue(size: int, version: int, r: int, c: int): Option<int> {
    if HasAlignment(size, version) && InBox(16, 16, 5, r, c) then Some(AlignmentCell(r, c))
    else FixedValue(size, r, c)
  }

  /** The grid `apply_patterns` produces from `initialise_matrix(size)` and an empty reserved set. */
  function PatternsGrid(size: nat, version: int): Grid {
    ApplyWrites(InitialiseMatrix(size), PatternWrites(size, version, {}))
  }

  function PatternsReserved(size: nat, version: int): set<Coord> {
    Coords(PatternWrites(size, version, {}))
  }

  lemma SeparatorCoordsExact(size: int, r: int, c: int)
    ensures (r, c) in SeparatorCoords(size) <==> IsSeparator(size, r, c)
  {
    var s1, s2, s3 := seq(8, i => (i, 7)), seq(8, i => (7, i)), seq(8, i => (i, size - 8));
    var s4, s5, s6 := seq(8, i => (7, size - 1 - i)), seq(8, i => (size - 8, i)), seq(8, i => (size - 1 - i, 7));
    assert SeparatorCoords(size) == s1 + s2 + s3 + s4 + s5 + s6;
    if c == 7 && 0 <= r < 8 { assert s1[r] == (r, c); }
    if r == 7 && 0 <= c < 8 { assert s2[c] == (r, c); }
    if c == size - 8 && 0 <= r < 8 { assert s3[r] == (r, c); }
    if r == 7 && size - 8 <= c < size { assert s4[size - 1 - c] == (r, c); }
    if r == size - 8 && 0 <= c < 8 { assert s5[c] == (r, c); }
    if c == 7 && size - 8 <= r < size { assert s6[size - 1 - r] == (r, c); }
  }

  /** Every separator cell lies inside a grid of size 9 or more. */
  lemma SeparatorsInBounds(size: int)
    requires size >= 9
    ensures |SeparatorCoords(size)| == 48
    ensures forall k :: 0 <= k < 48 ==> InBounds(size, SeparatorCoords(size)[k].0, SeparatorCoords(size)[k].1)
  {
    forall k | 0 <= k < 48 ensures InBounds(size, SeparatorCoords(size)[k].0, SeparatorCoords(size)[k].1) {
      var (r, c) := SeparatorCoords(size)[k];
      assert (r, c) in SeparatorCoords(size);
      SeparatorCoordsExact(size, r, c);
    }
  }

  /** The timing loop writes `i % 2` to (6, i) and (i, 6) for 8 <= i < upTo and nothing else. */
  lemma {:induction false} LookupTiming(upTo: int, r: int, c: int)
    ensures Lookup(TimingWrites(upTo), r, c)
         == if r == 6 && 8 <= c < upTo then Some(c % 2)
            else if c == 6 && 8 <= r < upTo then Some(r % 2)
            else None
  {
    if upTo > 8 {
      LookupTiming(upTo - 1, r, c);
      LookupAppend(TimingWrites(upTo - 1), TimingPair(upTo - 1), r, c);
      LookupAppend([Write(6, upTo - 1, (upTo - 1) % 2)], [Write(upTo - 1, 6, (upTo - 1) % 2)], r, c);
      assert TimingPair(upTo - 1) == [Write(6, upTo - 1, (upTo - 1) % 2)] + [Write(upTo - 1, 6, (upTo - 1) % 2)];
    }
  }

  lemma FinderIsRect()
    ensures IsRect(FINDER, 7) && IsRect(ALIGNMENT, 5)
  {
  }

  /** The finder loop, in closed form. */
  lemma LookupFinders(size: int, r: int, c: int)
    ensures Lookup(FinderRun(FinderCorners(size), 3), r, c) == FinderValue(size, r, c)
  {
    var corners := FinderCorners(size);
    assert corners[0] == (0, 0) && corners[1] == (0, size - 7) && corners[2] == (size - 7, 0);
    assert Lookup(FinderRun(corners, 0), r, c) == None;
    LookupFinderStep(corners, 0, r, c);
    LookupFinderStep(corners, 1, r, c);
    LookupFinderStep(corners, 2, r, c);
  }

  /** One more corner of the finder loop: its block decides the cells it covers. */
  lemma LookupFinderStep(corners: seq<Coord>, k: nat, r: int, c: int)
    requires k < |corners|
    ensures Lookup(FinderRun(corners, k + 1), r, c)
         == if InBox(corners[k].0, corners[k].1, 7, r, c) then Some(FinderCell(corners[k].0, corners[k].1, r, c))
            else Lookup(FinderRun(corners, k), r, c)
  {
    FinderIsRect();
    LookupAppend(FinderRun(corners, k), FinderWrites(corners[k].0, corners[k].1), r, c);
    LookupBlock(corners[k].0, corners[k].1, FINDER, 7, 7, r, c);
  }

  lemma LookupFixed(size: int, r: int, c: int)
    requires size >= 17
    ensures Lookup(FixedPatternWrites(size), r, c) == FixedValue(size, r, c)
  {
    var finders := FinderRun(FinderCorners(size), 3);
    var sep := Constant(SeparatorCoords(size), 0);
    var tim := TimingWrites(size - 8);
    var dark := [DarkModuleWrite(size)];
    LookupFinders(size, r, c);
    LookupConstant(SeparatorCoords(size), 0, r, c);
    SeparatorCoordsExact(size, r, c);
    LookupTiming(size - 8, r, c);
    LookupAppend(finders, sep, r, c);
    LookupAppend(finders + sep, tim, r, c);
    LookupAppend(finders + sep + tim, dark, r, c);
  }

  /** The fixed patterns of a 25 x 25 grid leave the 5 x 5 box around (18, 18) free. */
  lemma FixedAvoidsAlignment(size: int, r: int, c: int)
    requires size == 25 && InBox(16, 16, 5, r, c)
    ensures (r, c) !in Coords(FixedPatternWrites(size))
  {
    assert FinderValue(size, r, c) == None;
    assert FixedValue(size, r, c) == None;
    LookupFixed(size, r, c);
    CoordsLookup(FixedPatternWrites(size), r, c);
  }

  /** When nothing in the 5 x 5 box around (18, 18) is reserved, all 25 alignment cells are written. */
  lemma AlignmentUnobstructed(size: int, reserved: set<Coord>, r0: int, c0: int)
    requires size == 25 && r0 == 18 && c0 == 18
    requires forall r, c :: InBox(16, 16, 5, r, c) ==> (r, c) !in reserved
    ensures AlignmentWrites(size, reserved, r0, c0) == AlignmentCandidates(r0, c0)
  {
    var ws := AlignmentCandidates(r0, c0);
    FinderIsRect();
    forall k | 0 <= k < |ws| ensures InBounds(size, ws[k].row, ws[k].col) && At(ws[k]) !in reserved {
      var (r, c) := At(ws[k]);
      CoordsContains(ws, k);
      CoordsLookup(ws, r, c);
      LookupBlock(r0 - 2, c0 - 2, ALIGNMENT, 5, 5, r, c);
      assert InBox(16, 16, 5, r, c);
    }
    UnreservedAll(ws, size, reserved);
  }

  /** Every write of `apply_patterns` on a fresh grid, in closed form. */
  lemma LookupPatterns(size: int, version: int, r: int, c: int)
    requires size >= 17
    ensures Lookup(PatternWrites(size, version, {}), r, c) == PatternValue(size, version, r, c)
  {
    if HasAlignment(size, version) {
      LookupPatternsAligned(size, version, r, c);
    } else {
      var fixed := FixedPatternWrites(size);
      assert PatternWrites(size, version, {}) == fixed + [] == fixed;
      LookupFixed(size, r, c);
    }
  }

  lemma LookupPatternsAligned(size: int, version: int, r: int, c: int)
    requires size >= 17 && HasAlignment(size, version)
    ensures Lookup(PatternWrites(size, version, {}), r, c) == PatternValue(size, version, r, c)
  {
    assert PatternWrites(size, version, {}) == FixedPatternWrites(size) + AlignmentCandidates(18, 18) by {
      AlignmentComplete(size, version);
    }
    LookupFixedThenAlignment(size, r, c);
    PatternValueAligned(size, version, r, c);
  }

  lemma PatternValueAligned(size: int, version: int, r: int, c: int)
    requires HasAlignment(size, version)
    ensures PatternValue(size, version, r, c)
         == if InBox(16, 16, 5, r, c) then Some(AlignmentCell(r, c)) else FixedValue(size, r, c)
  {
  }

  /** The fixed patterns followed by the whole alignment glyph at (18, 18), for any size. */
  lemma LookupFixedThenAlignment(size: int, r: int, c: int)
    requires size >= 17
    ensures Lookup(FixedPatternWrites(size) + AlignmentCandidates(18, 18), r, c)
         == if InBox(16, 16, 5, r, c) then Some(AlignmentCell(r, c)) else FixedValue(size, r, c)
  {
    LookupAppend(FixedPatternWrites(size), AlignmentCandidates(18, 18), r, c);
    LookupAlignment(r, c);
    if !InBox(16, 16, 5, r, c) {
      LookupFixed(size, r, c);
    }
  }

  /** On a fresh version 2 grid the alignment step finds its whole box free and writes all 25 cells. */
  lemma AlignmentComplete(size: int, version: int)
    requires HasAlignment(size, version)
    ensures VersionAlignment(size, version, {} + Coords(FixedPatternWrites(size))) == AlignmentCandidates(18, 18)
  {
    var fixed := FixedPatternWrites(size);
    forall r', c' | InBox(16, 16, 5, r', c') ensures (r', c') !in {} + Coords(fixed) {
      FixedAvoidsAlignment(size, r', c');
    }
    AlignmentUnobstructed(size, {} + Coords(fixed), 18, 18);
  }

  /** The alignment glyph centred on (18, 18), in closed form. */
  lemma LookupAlignment(r: int, c: int)
    ensures Lookup(AlignmentCandidates(18, 18), r, c)
         == if InBox(16, 16, 5, r, c) then Some(AlignmentCell(r, c)) else None
  {
    FinderIsRect();
    LookupBlock(16, 16, ALIGNMENT, 5, 5, r, c);
  }

  /** The value a cell holds: the one written to it, or unset. */
  function CellValue(v: Option<int>): int {
    match v
    case Some(x) => x
    case None => UNSET
  }

  /** `g` is what `apply_patterns` makes of a fresh size x size grid. */
  ghost predicate HoldsPatterns(g: Grid, size: int, version: int) {
    && IsSquare(g, size)
    && forall r, c :: InBounds(size, r, c) ==> g[r][c] == CellValue(PatternValue(size, version, r, c))
  }

  /** `reserved` is the set of cells `apply_patterns` marks on a fresh grid. */
  ghost predicate ReservesPatterns(reserved: set<Coord>, size: int, version: int) {
    forall p :: p in reserved <==> PatternValue(size, version, p.0, p.1).Some?
  }

  /** Only cells inside the grid receive a pattern value. */
  lemma PatternValueInBounds(size: int, version: int, r: int, c: int)
    requires size >= 17 && PatternValue(size, version, r, c).Some?
    ensures InBounds(size, r, c) && PatternValue(size, version, r, c).value in {0, 1}
  {
  }

  /**
   * `apply_patterns` on `initialise_matrix(size)` and an empty reserved set
   * leaves every cell with its closed-form value and reserves exactly the
   * cells it sets.
   */
  lemma PatternsCharacterised(size: nat, version: int)
    requires size >= 17
    ensures HoldsPatterns(PatternsGrid(size, version), size, version)
    ensures ReservesPatterns(PatternsReserved(size, version), size, version)
  {
    var ws := PatternWrites(size, version, {});
    forall r, c | InBounds(size, r, c)
      ensures PatternsGrid(size, version)[r][c] == CellValue(PatternValue(size, version, r, c))
    {
      LookupPatterns(size, version, r, c);
      ApplyWritesCell(InitialiseMatrix(size), ws, r, c);
    }
    forall p ensures p in PatternsReserved(size, version) <==> PatternValue(size, version, p.0, p.1).Some? {
      LookupPatterns(size, version, p.0, p.1);
      CoordsLookup(ws, p.0, p.1);
    }
  }

  /** The three finder blocks hold the glyph. */
  lemma FinderBlocks(g: Grid, size: int, version: int, dr: int, dc: int)
    requires size >= 17 && HoldsPatterns(g, size, version) && 0 <= dr < 7 && 0 <= dc < 7
    ensures g[dr][dc] == FINDER[dr][dc]
    ensures g[dr][size - 7 + dc] == FINDER[dr][dc]
    ensures g[size - 7 + dr][dc] == FINDER[dr][dc]
  {
    assert PatternValue(size, version, dr, dc) == Some(FINDER[dr][dc]);
    assert PatternValue(size, version, dr, size - 7 + dc) == Some(FINDER[dr][dc]);
    assert PatternValue(size, version, size - 7 + dr, dc) == Some(FINDER[dr][dc]);
  }

  /** All separator cells hold 0. */
  lemma SeparatorsLight(g: Grid, size: int, version: int, r: int, c: int)
    requires size >= 17 && HoldsPatterns(g, size, version) && IsSeparator(size, r, c)
    ensures g[r][c] == 0
  {
    assert PatternValue(size, version, r, c) == Some(0);
  }

  /** Timing cells (6, i) and (i, 6) hold `i % 2` for 8 <= i < size - 8, so index 8 is light. */
  lemma TimingCells(g: Grid, size: int, version: int, i: int)
    requires size >= 17 && HoldsPatterns(g, size, version) && 8 <= i < size - 8
    ensures g[6][i] == i % 2 && g[i][6] == i % 2
  {
    assert PatternValue(size, version, 6, i) == Some(i % 2);
    assert PatternValue(size, version, i, 6) == Some(i % 2);
  }

  /** The dark module (size - 8, 8) holds 1. */
  lemma DarkModule(g: Grid, size: int, version: int)
    requires size >= 17 && HoldsPatterns(g, size, version)
    ensures g[size - 8][8] == 1
  {
    assert PatternValue(size, version, size - 8, 8) == Some(1);
  }

  /** For version 2 the alignment glyph is centred at (18, 18). */
  lemma AlignmentBlock(g: Grid, size: int, version: int, dr: int, dc: int)
    requires size == 25 && version >= 2 && HoldsPatterns(g, size, version) && 0 <= dr < 5 && 0 <= dc < 5
    ensures g[16 + dr][16 + dc] == ALIGNMENT[dr][dc]
  {
    assert PatternValue(size, version, 16 + dr, 16 + dc) == Some(ALIGNMENT[dr][dc]);
  }

  /** Version 1 has no alignment pattern: the whole 5 x 5 box around (18, 18), which no other pattern covers, stays unset. */
  lemma NoAlignmentForVersionOne(g: Grid, size: int)
    requires size == 21 && HoldsPatterns(g, size, 1)
    ensures forall r, c :: 16 <= r < 21 && 16 <= c < 21 ==> g[r][c] == UNSET
  {
    forall r, c | 16 <= r < 21 && 16 <= c < 21
      ensures g[r][c] == UNSET
    {
      assert PatternValue(size, 1, r, c) == None;
    }
  }

  /** The cells set by the patterns are exactly the reserved ones, and every cell is unset, 0 or 1. */
  lemma PatternsReservedExactly(g: Grid, reserved: set<Coord>, size: int, version: int, r: int, c: int)
    requires size >= 17 && HoldsPatterns(g, size, version) && ReservesPatterns(reserved, size, version)
    requires InBounds(size, r, c)
    ensures g[r][c] != UNSET <==> (r, c) in reserved
    ensures g[r][c] in {UNSET, 0, 1}
  {
    if PatternValue(size, version, r, c).Some? {
      PatternValueInBounds(size, version, r, c);
    }
  }

  /** Column 6 is reserved from top to bottom (finder, separator, timing, separator, finder). */
  lemma ColumnSixReserved(reserved: set<Coord>, size: int, version: int, r: int)
    requires size >= 17 && ReservesPatterns(reserved, size, version) && 0 <= r < size
    ensures (r, 6) in reserved
  {
    assert PatternValue(size, version, r, 6).Some?;
  }

  /** `FORMAT_STRINGS[mask_id]`: Python reads a negative index from the end of the list. */
  function FormatString(maskId: int): string
    requires -8 <= maskId < 8
  {
    FORMAT_STRINGS[if maskId < 0 then maskId + 8 else maskId]
  }

  /** `pos1` of `place_format_info`: along row 8, around (8, 8), then up column 8. */
  function FormatPositions1(): seq<Coord> {
    seq(6, i => (8, i)) + [(8, 7), (8, 8), (7, 8)] + seq(6, k => (5 - k, 8))
  }

  /** `pos2` of `place_format_info`: up column 8 from the bottom, then along row 8 from the right. */
  function FormatPositions2(size: int): seq<Coord> {
    seq(7, i => (size - 1 - i, 8)) + seq(8, i => (8, size - 1 - i))
  }

  /** Cell k of a 15-cell run receives digit k of the format string. */
  function FormatRun(positions: seq<Coord>, maskId: int): (ws: seq<Write>)
    requires |positions| == 15 && -8 <= maskId < 8
    ensures |ws| == 15
  {
    seq(15, k requires 0 <= k < 15 => Write(positions[k].0, positions[k].1, DigitValue(FormatString(maskId)[k])))
  }

  /** `place_format_info(m, mask_id)`: both runs, `pos1` first. */
  function FormatWrites(size: int, maskId: int): seq<Write>
    requires -8 <= maskId < 8
  {
    FormatRun(FormatPositions1(), maskId) + FormatRun(FormatPositions2(size), maskId)
  }

  lemma FormatPositionsShape(size: int)
    ensures |FormatPositions1()| == 15 && |FormatPositions2(size)| == 15
    ensures forall k :: 0 <= k < 6 ==> FormatPositions1()[k] == (8, k)
    ensures FormatPositions1()[6] == (8, 7) && FormatPositions1()[7] == (8, 8) && FormatPositions1()[8] == (7, 8)
    ensures forall k :: 9 <= k < 15 ==> FormatPositions1()[k] == (14 - k, 8)
    ensures forall k :: 0 <= k < 7 ==> FormatPositions2(size)[k] == (size - 1 - k, 8)
    ensures forall k :: 7 <= k < 15 ==> FormatPositions2(size)[k] == (8, size + 6 - k)
  {
  }

  /** Both format runs lie inside a grid of size 9 or more. */
  lemma FormatRunsInBounds(size: int, maskId: int)
    requires size >= 9 && -8 <= maskId < 8
    ensures forall k :: 0 <= k < 15 ==>
      InBounds(size, FormatRun(FormatPositions1(), maskId)[k].row, FormatRun(FormatPositions1(), maskId)[k].col)
    ensures forall k :: 0 <= k < 15 ==>
      InBounds(size, FormatRun(FormatPositions2(size), maskId)[k].row, FormatRun(FormatPositions2(size), maskId)[k].col)
  {
    FormatPositionsShape(size);
  }

  /** The format strings hold only binary digits, so every format cell receives 0 or 1. */
  lemma FormatStringsBinary(maskId: int)
    requires -8 <= maskId < 8
    ensures |FormatString(maskId)| == 15 && IsBinary(FormatString(maskId))
  {
  }

  /**
   * Cell k of each run holds digit k of the format string: the fifteen cells
   * of a run are distinct and, on a grid of size 17 or more, the two runs do
   * not meet.
   */
  lemma FormatCells(size: int, maskId: int, k: int)
    requires size >= 17 && -8 <= maskId < 8 && 0 <= k < 15
    ensures var bit := Some(DigitValue(FormatString(maskId)[k]));
      && Lookup(FormatWrites(size, maskId), FormatPositions1()[k].0, FormatPositions1()[k].1) == bit
      && Lookup(FormatWrites(size, maskId), FormatPositions2(size)[k].0, FormatPositions2(size)[k].1) == bit
  {
    FormatPositionsShape(size);
    var run1, run2 := FormatRun(FormatPositions1(), maskId), FormatRun(FormatPositions2(size), maskId);
    var (r1, c1) := FormatPositions1()[k];
    var (r2, c2) := FormatPositions2(size)[k];
    LookupAt(run1, k);
    LookupAt(run2, k);
    LookupNone(run2, r1, c1);
    LookupAppend(run1, run2, r1, c1);
    LookupAppend(run1, run2, r2, c2);
  }

  /** The format runs skip the timing cells (6, 8) and (8, 6) and the dark module (size - 8, 8). */
  lemma FormatAvoidsFixedCells(size: int, maskId: int)
    requires size >= 17 && -8 <= maskId < 8
    ensures (6, 8) !in Coords(FormatWrites(size, maskId))
    ensures (8, 6) !in Coords(FormatWrites(size, maskId))
    ensures (size - 8, 8) !in Coords(FormatWrites(size, maskId))
  {
    FormatPositionsShape(size);
    var ws := FormatWrites(size, maskId);
    LookupNone(ws, 6, 8);
    LookupNone(ws, 8, 6);
    LookupNone(ws, size - 8, 8);
    CoordsLookup(ws, 6, 8);
    CoordsLookup(ws, 8, 6);
    CoordsLookup(ws, size - 8, 8);
  }

  /** Every format write lands inside the grid and stores a 0 or a 1. */
  lemma FormatWritesBinary(size: int, maskId: int)
    requires size >= 17 && -8 <= maskId < 8
    ensures forall k :: 0 <= k < |FormatWrites(size, maskId)| ==>
      var w := FormatWrites(size, maskId)[k];
      InBounds(size, w.row, w.col) && w.value in {0, 1}
  {
    FormatPositionsShape(size);
    FormatStringsBinary(maskId);
  }
}

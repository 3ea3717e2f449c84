# QR Code symbol construction for versions 1 and 2

This project models the QR Code pipeline of the Python-QR repository. The
pipeline turns a short text into a 21×21 (version 1) or 25×25 (version 2)
symbol with error-correction level L and byte-mode data. It covers these stages:

- **Bitstream encoder** (`Encoder`, `Bits`). This is `make_data_bitstream` and
  `to_bitstring`. The stream is the mode indicator `0100`, the length as
  eight binary digits, the payload bytes most significant bit first, a
  terminator of at most four zero bits, zero bits up to a byte boundary, and
  the pad codewords `11101100` and `00010001` in turn.
- **Codeword split and concatenation** (`Bits.SplitCodewords`, `Pipeline`).
  The driver cuts the stream into 8-bit codewords and appends the
  error-correction codewords.
- **Matrix builders** (`Builder.Symbol`, specified by `Grid` and `Patterns`).
  These are `initialise_matrix`, `place_finder_pattern`,
  `place_alignment_pattern`, `apply_patterns` and `place_format_info`. They
  write into the grid `m` and add every cell they write to the module-wide set
  `FUNCTION_MODULES`. A `Symbol` object holds both as fields: `matrix` (a
  sequence of rows) and `functionModules`.
- **Data placer** (`Builder.Symbol.MapData`, specified by `Placement`). This
  is `map_data`'s zig-zag walk over column pairs from the right. It steps over
  column 6 without changing direction. Each unset cell gets the next bit, or 0
  once the bits run out.
- **Mask applier** (`Builder.Symbol.ApplyMask`, specified by `Masking`). It
  flips the cells outside `FUNCTION_MODULES` where the mask condition holds.
- **Penalty scorer** (`Penalty`). This is `score_penalty`'s four rules, as the
  code computes them:
  - rule 1 scores every start of five equal modules, not only maximal runs;
  - the balance rule floors the dark percentage before taking its distance
    from 50.
- **Mask selection** (`Selector`). This is the loop of `main()` and of
  `generate_v1_matrix_and_image`. It runs eight trials, mask ids 0 to 7, each
  on a fresh grid and a fresh reserved set. It keeps the first trial with
  strictly the lowest score.
- **Driver** (`Pipeline`). It picks the smallest version whose capacity holds
  the text, or fails, then runs the stages above. The version-1 helpers are
  `make_v1_data_bitstream`, `generate_v1_error_correction` and the selection of
  `generate_v1_matrix_and_image`.
- **Colour parser** (`Colour`). This is `ansi_to_rgb` with `ANSI_RGB_MAP`.

### Three copies of the pipeline

`Jack_32007852.py` and `qr.py` are the same file, and the table below cites
`Jack_32007852.py`. `main.py` repeats the pipeline functions:

- `to_bitstring` and `make_data_bitstream` sit 14 lines lower;
- `generate_error_correction`, `initialise_matrix`, `mark_function`,
  `place_finder_pattern`, `place_alignment_pattern` and `apply_patterns` sit
  15 lines lower;
- `place_format_info`, `map_data`, `apply_mask` and `score_penalty` sit 29
  lines lower.

### How the stages are specified

- **Changing state, proved against a specification.** The stages that change
  state are methods of `Symbol`. Each one ensures its new state equals a
  function of the old state:
  - the builders apply a list of writes (`Grid.ApplyWrites`) and add the
    written cells to `functionModules`;
  - `MapData` gives `Placement.Fill` over the walk `Placement.MapOrder`;
  - `ApplyMask` gives `Masking.Masked`.
  Lemmas then prove the properties of the code about those functions.
- **The score.** `Penalty.ScorePenalty` runs the nested loops of
  `score_penalty` and is proved equal to `Penalty.PenaltyScore`.
- **The selection.** `Selector.SelectMask` is proved to return the least mask
  id of least score (`Selector.BestTrial`), together with that trial's grid.
- **A behaviour kept as written.** The driver admits a text whose length is
  equal to the capacity or one below it, and for such a text the stream grows
  past the capacity. The terminator count goes negative, and a negative count of
  `'0'` is the empty string. `Encoder.DataBitstreamLength` states the
  resulting length, `8 * max(capacity, n + 2)` bits.

## Model

| member | source | states |
|---|---|---|
| Bits.ToBitstring | Jack_32007852.py:35-42 | the bit string of `n` bytes has length `8n` and holds only `0` and `1` |
| Bits.ToBitstringSlice | Jack_32007852.py:35-42 | the `k`-th 8-character slice is byte `k` written with `08b`, and parsing it base 2 gives byte `k` back |
| Bits.Format08bOfByte | Jack_32007852.py:42 | `08b` of a byte is exactly eight binary digits whose base-2 value is the byte |
| Bits.ParseBinaryOfBinary | Jack_32007852.py:42 | parsing the binary digits of `n` gives `n` back |
| Bits.PadBinaryRoundTrip | Jack_32007852.py:55 | a value below `2^w`, zero-padded to `w` digits, is `w` binary digits that parse back to the value |
| Bits.PadBinaryOfParse | main.py:510 | a binary string parses to a value below `2^len`, and re-formatting that value to `len` digits gives the string back |
| Bits.SplitCodewords | main.py:510 | cutting a binary string into 8-bit slices gives `ceil(len/8)` codewords |
| Bits.SplitThenJoin | main.py:510 | for a stream whose length is a multiple of 8, writing the codewords back with `08b` and joining them reproduces the stream |
| Bits.JoinThenSplit | main.py:510 | splitting the bit string of a byte sequence gives the bytes back |
| Encoder.PadCodewords | Jack_32007852.py:63-67 | `k` pad codewords are `8k` binary digits |
| Encoder.MakeDataBitstream | Jack_32007852.py:44-68 | the loops of `make_data_bitstream` build exactly `DataBitstream(text, data_codewords)` |
| Encoder.AlignToByte | Jack_32007852.py:61-62 | the zero-padding loop stops at the first byte boundary: the length becomes a multiple of 8 and grows by fewer than 8 |
| Encoder.AppendPadCodewords | Jack_32007852.py:63-67 | the pad loop appends alternating pads until `data_codewords` codewords are reached, and appends none when that many are already there |
| Encoder.TerminatorCases | Jack_32007852.py:54-59 | header and payload take `12 + 8n` bits; the terminator is 4 zero bits when `n + 2 <= data_codewords` and none otherwise |
| Encoder.DataBitstreamParts | Jack_32007852.py:54-67 | below 256 bytes the stream is header and payload, then `0000`, then `max(0, data_codewords - n - 2)` pad codewords |
| Encoder.DataBitstreamLength | Jack_32007852.py:54-67 | the stream is binary, its length is a multiple of 8 and equals `8 * max(data_codewords, n + 2)`: the capacity when `n <= data_codewords - 2`, and one or two codewords past it otherwise |
| Encoder.DataBitstreamHeader | Jack_32007852.py:54-57 | the stream starts with `0100`, then the text length as eight binary digits that parse back to the length |
| Encoder.DataBitstreamPayload | Jack_32007852.py:57-60 | bits 12 to `12 + 8n` are the payload bytes most significant bit first, followed by four zero bits |
| Encoder.DataBitstreamPads | Jack_32007852.py:63-67 | the `j`-th codeword after the terminator is `11101100` for even `j` and `00010001` for odd `j` |
| Encoder.ChooseVersion | main.py:459-464 | the result is the smallest version in [1, 2] whose data-codeword capacity is at least the text length; None exactly when neither version holds it |
| Encoder.GenerateErrorCorrection | Jack_32007852.py:70-81 | the result is the last `ec_codewords` bytes of the Reed-Solomon output (all of it when shorter), so that output is a prefix followed by the result |
| Grid.InitialiseMatrix | Jack_32007852.py:83-90 | a `size × size` grid with every cell -1 |
| Grid.UnwrittenUnchanged | Jack_32007852.py:122-123 | a cell that no write names keeps its value |
| Builder.Symbol.constructor | Jack_32007852.py:24 | the reserved set starts empty |
| Builder.Symbol.ResetFunctionModules | Jack_32007852.py:26-33 | the reserved set becomes empty and the grid is unchanged |
| Builder.Symbol.MarkFunction | Jack_32007852.py:92-99 | the reserved set gains exactly `(r, c)`; nothing is removed and the grid is unchanged |
| Builder.Symbol.PlaceFinderPattern | Jack_32007852.py:101-123 | the grid becomes the old grid with the 7×7 finder glyph written at `(r, c)`, and exactly those 49 cells are added to the reserved set |
| Builder.Symbol.Stamp | Jack_32007852.py:120-123 | the nested loops write a rectangular pattern row by row and reserve each cell written |
| Builder.Symbol.StampRow | Jack_32007852.py:121-123 | the inner loop writes one row of the pattern in order and reserves its cells |
| Builder.Symbol.PlaceAlignmentPattern | Jack_32007852.py:125-149 | only the in-bounds cells of the 5×5 box centred at `(r, c)` that were not already reserved are written, and only those are added to the reserved set |
| Builder.Symbol.StampUnreserved | Jack_32007852.py:142-149 | the guarded nested loops give the writes of the pattern filtered to in-bounds, unreserved cells, judged against the reserved set at the start |
| Builder.Symbol.StampRowUnreserved | Jack_32007852.py:143-149 | one row of the guarded loop; cells reserved by earlier rows of the same box cannot be in this row, so the filter is the same as at the start |
| Builder.Symbol.PerformWrites | Jack_32007852.py:172-174 | a loop that writes and reserves each listed cell in order leaves the grid `ApplyWrites(old, ws)` and reserves exactly those cells in addition |
| Builder.Symbol.PlaceFinderPatterns | Jack_32007852.py:164-165 | the three finder glyphs at `(0,0)`, `(0,size-7)` and `(size-7,0)` are written and reserved, in that order |
| Builder.Symbol.PlaceTimingPatterns | Jack_32007852.py:176-179 | for `8 <= i < size-8` the cells `(6,i)` and `(i,6)` get `i % 2` and are reserved |
| Builder.Symbol.PlaceDarkModule | Jack_32007852.py:181-183 | the cell `(size-8, 8)` gets 1 and is reserved |
| Builder.Symbol.PlaceFixedPatterns | Jack_32007852.py:163-183 | finders, the 48 separator cells (value 0), the timing cells and the dark module, written and reserved in the code's order |
| Builder.Symbol.PlaceVersionAlignment | Jack_32007852.py:185-187 | the alignment pattern at `(18, 18)` is placed only when `version >= 2` and `size == 25` |
| Builder.Symbol.ApplyPatterns | Jack_32007852.py:151-187 | the grid and reserved set become those the whole write list of `apply_patterns` gives |
| Builder.Symbol.PlaceFormatInfo | Jack_32007852.py:189-205 | bit `k` of `FORMAT_STRINGS[mask_id]` is written to the `k`-th cell of both 15-cell runs, and the 30 writes' cells are reserved |
| Builder.Symbol.MapData | Jack_32007852.py:207-234 | the column-pair loop leaves the grid `Fill` gives over the walk `MapOrder` with the codewords' bits; the reserved set is unchanged |
| Builder.Symbol.SweepPair | Jack_32007852.py:224-232 | one column pair visits the rows in sweep order, right cell before left, and extends the fill by those cells |
| Builder.Symbol.VisitRow | Jack_32007852.py:226-232 | one row of a pair visits `(r, col)` then `(r, col-1)` |
| Builder.Symbol.VisitCell | Jack_32007852.py:227-232 | an unset cell gets the next bit, or 0 once the bits are used up, and the bit index advances only on a bit taken; a set cell is left alone |
| Builder.Symbol.ApplyMask | Jack_32007852.py:236-256 | the grid becomes `Masked(old grid, FUNCTION_MODULES, mask_id)` and the reserved set is unchanged |
| Builder.Symbol.MaskRow | Jack_32007852.py:254-256 | the inner loop replaces row `r` by its masked version and nothing else |
| Patterns.SeparatorCoordsExact | Jack_32007852.py:167-171 | a cell is in `sep_coords` exactly when it is on one of the six 8-cell separator strips |
| Patterns.SeparatorsInBounds | Jack_32007852.py:167-171 | there are 48 separator coordinates, all inside the grid |
| Patterns.PatternsCharacterised | Jack_32007852.py:151-187 | after `apply_patterns` on a fresh grid, each cell holds the closed-form pattern value (or -1 if none) and the reserved set is exactly the cells with a value |
| Patterns.FinderBlocks | Jack_32007852.py:164-165 | the 7×7 blocks at `(0,0)`, `(0,size-7)` and `(size-7,0)` equal the finder glyph |
| Patterns.SeparatorsLight | Jack_32007852.py:172-173 | every separator cell holds 0 |
| Patterns.TimingCells | Jack_32007852.py:176-179 | `(6,i)` and `(i,6)` hold `i % 2` for `8 <= i < size-8`, so index 8 is light |
| Patterns.DarkModule | Jack_32007852.py:181-183 | `(size-8, 8)` holds 1 |
| Patterns.AlignmentBlock | Jack_32007852.py:185-187 | for version 2 at size 25 the 5×5 block at `(16,16)` equals the alignment glyph |
| Patterns.NoAlignmentForVersionOne | Jack_32007852.py:185-187 | for version 1 at size 21 no alignment pattern is placed: the whole 5×5 box at rows and columns 16–20 stays -1 |
| Patterns.AlignmentUnobstructed | Jack_32007852.py:146-149 | at size 25 around `(18,18)` no cell is out of bounds or already reserved, so every cell of the box is written |
| Patterns.PatternsReservedExactly | Jack_32007852.py:151-187 | after `apply_patterns` a cell is written (not -1) exactly when it is reserved, and every cell is -1, 0 or 1 |
| Patterns.ColumnSixReserved | Jack_32007852.py:164-179 | every cell of column 6 is reserved by the finders, separators and timing pattern |
| Patterns.FormatPositionsShape | Jack_32007852.py:198-199 | `pos1` and `pos2` are 15 cells each, listed coordinate by coordinate |
| Patterns.FormatRunsInBounds | Jack_32007852.py:198-199 | all 30 format coordinates are inside the grid |
| Patterns.FormatStringsBinary | Jack_32007852.py:19-22 | each format string has 15 binary digits |
| Patterns.FormatCells | Jack_32007852.py:200-205 | the `k`-th cell of each run takes bit `k` of the format string for the mask |
| Patterns.FormatAvoidsFixedCells | Jack_32007852.py:198-199 | neither run touches `(6,8)`, `(8,6)` or the dark module `(size-8,8)` |
| Patterns.FormatWritesBinary | Jack_32007852.py:200-205 | every format write has value 0 or 1 |
| Placement.PairCells | Jack_32007852.py:224-226 | one column pair visits `2 × size` cells |
| Placement.PairCellsMembers | Jack_32007852.py:224-226 | a cell is visited in a pair exactly when it is in column `col` or `col-1` and its row is swept |
| Placement.WalkStep | Jack_32007852.py:220-234 | outside column 6, the walk is one pair followed by the walk from `col-2` in the other direction |
| Placement.WalkSkipSix | Jack_32007852.py:221-223 | at column 6 the walk moves to column 5 without flipping direction |
| Placement.WalkMembers | Jack_32007852.py:220-234 | the walk from `col` visits exactly the in-bounds cells of columns `0..col` other than column 6 |
| Placement.WalkDistinct | Jack_32007852.py:220-234 | the walk visits no cell twice |
| Placement.MapOrderCovers | Jack_32007852.py:219-234 | for an odd size, the walk from the last column visits every cell outside column 6 exactly once |
| Placement.FillKeepsSetCells | Jack_32007852.py:227 | `map_data` never changes a cell that is not -1 |
| Placement.FillKeepsUnvisited | Jack_32007852.py:225-227 | a cell not on the walk keeps its value |
| Placement.FillSetsVisited | Jack_32007852.py:227-232 | every visited cell ends as 0 or 1, and a grid of -1/0/1 stays so |
| Placement.FillExact | Jack_32007852.py:216-232 | the `j`-th unset cell on the walk gets bit `j` of the codewords (0 past the end), and the bits consumed are `min(8·len(full_cw), unset cells)` |
| Masking.Xor1 | Jack_32007852.py:256 | `^= 1` always changes the value and swaps 0 and 1 |
| Masking.Xor1Involution | Jack_32007852.py:256 | XOR with 1 twice gives the value back |
| Masking.Masked | Jack_32007852.py:253-256 | masking keeps the grid's shape |
| Masking.MaskedRow | Jack_32007852.py:254-256 | masking a row keeps its length |
| Masking.MaskedCell | Jack_32007852.py:244-256 | a reserved cell is unchanged; a cell changes exactly when it is unreserved and the mask condition holds; 0/1 cells stay 0/1 |
| Masking.MaskedTwice | Jack_32007852.py:236-256 | applying the same mask twice restores the grid |
| Masking.MaskedOutOfRange | Jack_32007852.py:244-256 | a mask id outside 0..7 changes nothing, because the condition returns None |
| Penalty.RunLengthMaximal | Jack_32007852.py:277-279 | the run-length loop stops at the first differing module or the edge, and every module before that equals the first |
| Penalty.RunPenaltyAtRun | Jack_32007852.py:276-280 | a start index scores exactly when five equal modules begin there, and then scores `3 + (L - 5)` for the run length `L` from that index |
| Penalty.ConstantLineRuns | Jack_32007852.py:274-280 | a constant line of length `n >= 5` scores `(n-4)(n+1)/2`, more than a single maximal run would, because every start index counts |
| Penalty.BalancePenaltyBounds | Jack_32007852.py:308-311 | the balance term is a multiple of 10, at most 100, and 0 exactly when the floored dark percentage is between 46 and 54 |
| Penalty.LineRuns | Jack_32007852.py:275-280 | the loop over one line adds up the rule-1 term of every start index |
| Penalty.RunsPenalty | Jack_32007852.py:274-288 | rule 1 over all rows and all columns (the rows of the transpose) |
| Penalty.BlocksPenalty | Jack_32007852.py:290-293 | 3 for every uniform 2×2 window |
| Penalty.LineFinderLike | Jack_32007852.py:298-300 | 40 for every 11-window equal to `10111010000` or its reverse |
| Penalty.FinderLikePenalty | Jack_32007852.py:295-306 | rule 3 over all rows and all columns |
| Penalty.BlocksInRowCount | Jack_32007852.py:291-293 | along one block row, at most one count per window; none exactly when no window is uniform, one per window exactly when all are |
| Penalty.BlocksCount | Jack_32007852.py:290-293 | over the whole grid, rule 2 counts at most (n-1)² windows; none exactly when no 2×2 window is uniform, all of them exactly when every window is |
| Penalty.UniformGridBlocks | Jack_32007852.py:290-293 | a grid of n ≥ 2 equal modules has (n-1)² uniform windows, so rule 2 scores 3·(n-1)² |
| Penalty.FinderLikeCountBounds | Jack_32007852.py:298-300 | along one line, at most one count per start index; none exactly when no 11-window equals `10111010000` or its reverse, one per index exactly when all do |
| Penalty.ConstantLineNoFinderLike | Jack_32007852.py:295-300 | a line of equal modules has no finder-like window, so rule 3 scores 0 on it |
| Penalty.ScorePenalty | Jack_32007852.py:258-312 | the score is the sum of the four rules, `PenaltyScore(m)` |
| Selector.TrialGrid | main.py:539-568 | every trial's grid is `size × size` |
| Selector.FormattedCell | main.py:547-554 | after patterns and format information every cell is -1, 0 or 1, and column 6 is fully set |
| Selector.UnmaskedBinary | main.py:561 | after `map_data` no cell is -1 and every cell is 0 or 1 |
| Selector.TrialBinary | main.py:568 | after the mask every cell is still 0 or 1 |
| Selector.RunTrial | main.py:540-575 | a trial resets the reserved set and the grid, then runs patterns, format information, data, mask and score; nothing from an earlier trial survives |
| Selector.FirstMinimumStep | main.py:578-581 | a strictly lower score becomes the new best; an equal or higher one leaves the best alone |
| Selector.ScannedStep | main.py:578-581 | one step of the strict-less update keeps "first position of the least score seen" |
| Selector.SelectionStep | main.py:575-581 | one iteration keeps the best grid equal to the grid of the trial at the best mask |
| Selector.FirstMinimumOfTrials | main.py:539-581 | after all eight trials the best mask has the least score of all eight, and every lower id scores strictly more |
| Selector.BestTrialUnique | main.py:578-581 | at most one mask, score and grid meet the selection's result, so the result is determined by the trials |
| Selector.SelectMask | main.py:534-581 | all eight masks are tried; the result is the least id of least score, its score and its grid, which is fully 0/1 for sizes 21 and 25 |
| Pipeline.DataCodewords | main.py:510 | the data codewords written back with `08b` are the bitstream; there are `data_codewords` of them unless the text length is capacity - 1 or capacity |
| Pipeline.FullCodewords | main.py:524 | the full codewords are the data codewords followed by the last `ec_codewords` bytes of the Reed-Solomon output |
| Pipeline.Generate | main.py:459-581 | it fails exactly when the text is longer than the version-2 capacity; otherwise it uses the smallest fitting version and returns that version's best trial |
| Pipeline.GenerateVersion | main.py:503-581 | for a chosen version it returns the best trial over the full codewords of the text |
| Pipeline.MakeV1DataBitstream | Ryan_32019695.py:12-16 | for any text it is the version-1 stream; it is 152 bits for at most 17 bytes and, below 256 bytes, starts with `0100` and the length and pads with alternating codewords |
| Pipeline.V1Layout | Ryan_32019695.py:16 | below 256 bytes the version-1 stream has the length, header and alternating pad codewords above |
| Pipeline.GenerateV1ErrorCorrection | Ryan_32019695.py:18-22 | at most seven bytes: the last seven of the Reed-Solomon output when it has that many |
| Pipeline.GenerateV1Matrix | Jawad_32010182.py:16-33 | the version-1, size-21 selection returns the least mask of least score and its fully 0/1 grid |
| Colour.HexDigitValue | utils.py:37 | a hex digit's value is below 16 |
| Colour.ParseHexPair | utils.py:37 | a 2-character pair parses exactly when both are hex digits, to a value below 256 |
| Colour.LookupCode | utils.py:56 | `ANSI_RGB_MAP.get(code)` is Some exactly for the sixteen codes of the map, and every value is a byte triple |
| Colour.AnsiToRgb | utils.py:26-58 | a falsy argument gives None; a `#` string of length 7 gives a colour exactly when its six characters are hex digits; every colour is a byte triple |
| Colour.HexValues | utils.py:35-37 | a `#` string of six hex digits, upper or lower case, gives the values of its three pairs, `16 * high + low` each |
| Colour.PairLower | utils.py:37 | lower-casing a pair changes neither whether it parses nor its value |
| Colour.HexCaseInsensitive | utils.py:35-37 | a `#rrggbb` string gives the same result as its lower-case form, so `#FF8000` reads as `#ff8000` |
| Colour.Hex2Parses | utils.py:37 | the two lower-case hex digits of a byte parse back to it |
| Colour.HexRoundTrip | utils.py:35-37 | `#rrggbb` written from a byte triple parses back to the triple |
| Colour.LowerTwice | utils.py:52 | lower-casing is idempotent |
| Colour.NamedLookup | utils.py:52-53 | a string whose lower-case form is one of the ten names gives that name's colour |
| Colour.NamedCaseInsensitive | utils.py:40-53 | a name gives the same colour whatever its case |
| Colour.GreyIsGray | utils.py:49-50 | `gray` and `grey`, in any case, both give (128, 128, 128) |
| Colour.DecimalValue | utils.py:55 | the decimal digits of `n` parse back to `n` |
| Colour.RemoveAbsent | utils.py:55 | `replace` of a pattern whose first character does not occur leaves the string alone |
| Colour.RemoveTrailing | utils.py:55 | removing the final `m` from digits followed by `m` leaves the digits |
| Colour.EscapeCode | utils.py:55 | `ESC [ digits m` is read as the decimal value of the digits |
| Colour.EscapeNotNamed | utils.py:52 | a string starting with ESC is never a colour name |
| Colour.EscapeSequence | utils.py:52-56 | `ESC [ digits m` gives the map's colour for that code, or None |
| Colour.DigitsNotNamed | utils.py:52 | a string starting with a digit is never a colour name |
| Colour.DigitsCode | utils.py:55 | the code read from a plain digit string is the value of the digits |
| Colour.PlainDecimal | utils.py:54-56 | a plain decimal string such as `31` gives the map's colour for its value, or None |
| Colour.IntegerCode | utils.py:54-56 | an integer argument gives the map's colour for it, and 0 gives None because it is falsy |
| Colour.AnsiEscapeLookup | utils.py:7-24 | each code of the map gives its colour both as `ESC [ code m` and as the integer itself |

## Left out

- Reed-Solomon encoding (`reedsolo.RSCodec`) is a foreign library. It is a function-typed parameter `rs(data, nsym)`; only the adapter that keeps the last `ec_codewords` bytes is modelled.
- Image output (`save_matrix_as_image`), terminal printing (`print_matrix`), the `input()` prompts, the customisation questions and the step-by-step prints of `main()` are I/O. The driver's error message is the `Failure` value of `Pipeline.Generate`.
- `Luke_32012631.py` is a GUI and is not part of this model. Its version choice and mask loop repeat those of `main()` and `generate_v1_matrix_and_image`.
- `main.py`'s own `ansi_to_rgb` (lines 206-216) always returns None. `main.py`'s `save_matrix_as_image` calls it (lines 415-416), so the image that `main.py`'s `main()` saves is black on white whatever colours were chosen. Image output is left out; only the parser in `utils.py`, which `Jack_32007852.py` imports and calls (lines 8, 332-333), is modelled.
- `generate_v1_matrix_and_image` takes characters, colours, a frame flag and a scale only for the image. `Pipeline.GenerateV1Matrix` keeps the selection and returns the grid, mask and score.
- Text is taken as the bytes of its ISO-8859-1 encoding. A character outside Latin-1, for which `encode` raises, is not modelled.
- The `float('inf')` sentinel is `None` of an `Option`, and `best_matrix = None` likewise.
- `FUNCTION_MODULES` is a field of one `Symbol` object that the selection reuses across its trials. Aliasing of the Python global between modules is not modelled.
- The grid is a sequence of rows updated by reassignment, not a shared list of lists. Aliasing between rows is not modelled.
- Builder.Symbol.PlaceFinderPattern, Builder.Symbol.ApplyPatterns, Builder.Symbol.PlaceTimingPatterns, Builder.Symbol.PlaceDarkModule and Builder.Symbol.PlaceFormatInfo require the cells they write to be inside the grid (size at least 9). Python would wrap negative indices for a smaller grid; the code only ever builds sizes 21 and 25.
- Builder.Symbol.PlaceFormatInfo requires `-8 <= mask_id < 8`, the indices `FORMAT_STRINGS[mask_id]` accepts; any other id raises `IndexError` in Python.
- Penalty.ScorePenalty requires a non-empty grid; on an empty one `score_penalty` raises `ZeroDivisionError`.
- Selector.SelectMask is stated for any size of at least 9; the 0/1 property of the result is proved for odd sizes of at least 17, which covers 21 and 25.
- Builder.Symbol.StampRow models the inner `for dc` loop as its row of writes performed in order, by `PerformWrites`.
- Colour.AnsiToRgb reads a hex pair only when both characters are hex digits. Python's `int(x, 16)` also accepts a sign, surrounding spaces and non-ASCII Unicode decimal digits (`"+f"`, `"-f"`, `" f"`, `"٠٠"`); the model returns None for those.
- Colour.AnsiToRgb reads the final integer only when the remaining text is plain ASCII decimal digits. Python's `int()` also accepts a sign, surrounding whitespace, underscores between digits and non-ASCII digits; the model returns None for those.
- Colour.AnsiToRgb lower-cases and strips ASCII letters and ASCII whitespace only; Unicode case mapping and Unicode whitespace are not modelled.
- Colour.AnsiToRgb takes a string, an integer or None. Other Python values (booleans, floats, objects with a `__str__`) are not modelled.

/**
 * The data masks of `apply_mask`: the eight mask predicates and the XOR
 * with 1 applied to every unreserved cell where the chosen predicate holds.
 */
module Masking {
  import opened Grid

  /**
   * `condition(r, c)` for `mask_id`; for an id outside 0..7 the source's
   * predicate falls through and returns None, which counts as false.
   */
  function Condition(maskId: int, r: int, c: int): bool {
    if maskId == 0 then (r + c) % 2 == 0
    else if maskId == 1 then r % 2 == 0
    else if maskId == 2 then c % 3 == 0
    else if maskId == 3 then (r + c) % 3 == 0
    else if maskId == 4 then (r / 2 + c / 3) % 2 == 0
    else if maskId == 5 then (r * c) % 2 + (r * c) % 3 == 0
    else if maskId == 6 then ((r * c) % 2 + (r * c) % 3) % 2 == 0
    else if maskId == 7 then ((r + c) % 2 + (r * c) % 3) % 2 == 0
    else false
  }

  /** Python's `x ^ 1` on an int: flips the lowest bit (so -1 becomes -2). */
  function Xor1(x: int): (y: int)
    ensures y != x && (x in {0, 1} ==> y == 1 - x)
  {
    if x % 2 == 0 then x + 1 else x - 1
  }

  /** `apply_mask(m, mask_id)` with `FUNCTION_MODULES` equal to `reserved`. */
  function Masked(g: Grid, reserved: set<Coord>, maskId: int): (h: Grid)
    ensures |h| == |g| && forall r :: 0 <= r < |g| ==> |h[r]| == |g[r]|
  {
    seq(|g|, r requires 0 <= r < |g| => MaskedRow(g[r], r, reserved, maskId))
  }

  /** Row `r` of the masked grid, made from row `r` of the grid. */
  function MaskedRow(row: seq<int>, r: int, reserved: set<Coord>, maskId: int): (masked: seq<int>)
    ensures |masked| == |row|
  {
    seq(|row|, c requires 0 <= c < |row| =>
      if (r, c) !in reserved && Condition(maskId, r, c) then Xor1(row[c]) else row[c])
  }

  /** `x ^ 1 ^ 1 == x`. */
  lemma Xor1Involution(x: int)
    ensures Xor1(Xor1(x)) == x
  {
  }

  /**
   * The mask leaves every reserved cell as it is and changes exactly the
   * unreserved cells where the predicate holds, each to the other bit.
   */
  lemma MaskedCell(g: Grid, reserved: set<Coord>, maskId: int, r: int, c: int)
    requires 0 <= r < |g| && 0 <= c < |g[r]|
    ensures (r, c) in reserved ==> Masked(g, reserved, maskId)[r][c] == g[r][c]
    ensures Masked(g, reserved, maskId)[r][c] != g[r][c] <==> (r, c) !in reserved && Condition(maskId, r, c)
    ensures g[r][c] in {0, 1} ==> Masked(g, reserved, maskId)[r][c] in {0, 1}
  {
  }

  /** Applying the same mask twice restores the grid. */
  lemma MaskedTwice(g: Grid, reserved: set<Coord>, maskId: int)
    ensures Masked(Masked(g, reserved, maskId), reserved, maskId) == g
  {
    var h := Masked(Masked(g, reserved, maskId), reserved, maskId);
    assert |h| == |g|;
    forall r | 0 <= r < |g| ensures h[r] == g[r] {
      assert |h[r]| == |g[r]|;
      forall c | 0 <= c < |g[r]| ensures h[r][c] == g[r][c] {
        Xor1Involution(g[r][c]);
      }
    }
  }

  /** A mask id outside 0..7 changes nothing. */
  lemma MaskedOutOfRange(g: Grid, reserved: set<Coord>, maskId: int)
    requires maskId < 0 || maskId > 7
    ensures Masked(g, reserved, maskId) == g
  {
    var h := Masked(g, reserved, maskId);
    forall r | 0 <= r < |g| ensures h[r] == g[r] {
      assert |h[r]| == |g[r]|;
    }
  }
}

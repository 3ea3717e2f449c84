/**
 * The fixed tables of the encoder: `VERSION_PARAMETERS`, `MODE_INDICATOR`
 * and `FORMAT_STRINGS` (format information for error-correction level L,
 * one 15-bit string per mask pattern).
 */
module Params {
  import opened Bits

  datatype VersionParams = VersionParams(size: nat, dataCodewords: nat, ecCodewords: nat)

  /** The keys of `VERSION_PARAMETERS`. */
  predicate IsVersion(version: int) {
    version == 1 || version == 2
  }

  /** `VERSION_PARAMETERS[version]`; any other key is a `KeyError` in the source. */
  function VersionParameters(version: int): VersionParams
    requires IsVersion(version)
  {
    if version == 1 then VersionParams(21, 19, 7) else VersionParams(25, 34, 10)
  }

  function Size(version: int): nat
    requires IsVersion(version)
  {
    VersionParameters(version).size
  }

  const MODE_INDICATOR: string := "0100"

  const FORMAT_STRINGS: seq<string> := [
    "111011111000100", "111001011110011", "111110110101010", "111100010011101",
    "110011000101111", "110001100011000", "110110001000001", "110100101110110"
  ]
}

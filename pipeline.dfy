/**
 * The whole of `main()` from the text to the chosen grid, and the version-1
 * helpers of `Ryan_32019695.py` and `Jawad_32010182.py`, which delegate to
 * the same pipeline with the version fixed to 1.
 */
module Pipeline {
  import opened Wrappers
  import opened Bits
  import opened Params
  import opened Grid
  import opened Encoder
  import opened Selector

  /**
   * `data_cw` of `main()`: the bitstream cut into 8-bit codewords. Writing
   * them back with `08b` gives the bitstream, and there are exactly
   * `data_codewords` of them unless the text has capacity - 1 or capacity bytes.
   */
  function DataCodewords(text: seq<Byte>, version: int): (cw: seq<Byte>)
    requires IsVersion(version) && |text| < 256
    ensures var dc := VersionParameters(version).dataCodewords;
      && ToBitstring(cw) == DataBitstream(text, dc)
      && |cw| == (if |text| + 2 <= dc then dc else |text| + 2)
  {
    var dc := VersionParameters(version).dataCodewords;
    var bs := DataBitstream(text, dc);
    DataBitstreamLength(text, dc);
    SplitThenJoin(bs);
    SplitCodewords(bs)
  }

  /**
   * `full_cw = data_cw + ec_cw`: the data codewords, then the last
   * `ec_codewords` bytes the Reed-Solomon collaborator returns for them.
   */
  function FullCodewords(text: seq<Byte>, version: int, rs: ReedSolomon): (cw: seq<Byte>)
    requires IsVersion(version) && |text| < 256
    ensures var data := DataCodewords(text, version);
      var nsym := VersionParameters(version).ecCodewords;
      var full := rs(data, nsym);
      && |cw| == |data| + (if |full| < nsym then |full| else nsym)
      && cw[..|data|] == data
      && (|full| >= nsym ==> cw[|data|..] == full[|full| - nsym..])
  {
    var data := DataCodewords(text, version);
    var ec := GenerateErrorCorrection(data, version, rs);
    assert (data + ec)[..|data|] == data;
    data + ec
  }

  /** What `main()` ends with: the version, the chosen mask, its score and its grid. */
  datatype Generated = Generated(version: int, mask: int, score: int, matrix: Grid)

  /**
   * `main()` without its prompts and output: choose the smallest version
   * that holds the text, or fail; build the bitstream, split it into
   * codewords, add the error correction codewords and select the mask.
   */
  method Generate(text: seq<Byte>, rs: ReedSolomon) returns (r: Result<Generated, string>)
    ensures r.Failure? <==> |text| > VersionParameters(2).dataCodewords
    ensures r.Success? ==>
      var v := r.value.version;
      && IsVersion(v)
      && |text| <= VersionParameters(v).dataCodewords
      && (v == 2 ==> |text| > VersionParameters(1).dataCodewords)
      && BestTrial(Size(v), v, FullCodewords(text, v, rs), r.value.mask, r.value.score, r.value.matrix)
  {
    var version := ChooseVersion(|text|);
    if version.None? {
      assert |text| > VersionParameters(2).dataCodewords;
      return Failure("The input is too long for the Version 2 QR Code");
    }
    var v := version.value;
    assert |text| <= VersionParameters(2).dataCodewords;
    var generated := GenerateVersion(text, v, rs);
    return Success(generated);
  }

  /** The steps of `main()` after the version is chosen: bitstream, codewords, error correction, mask selection. */
  method GenerateVersion(text: seq<Byte>, v: int, rs: ReedSolomon) returns (g: Generated)
    requires IsVersion(v) && |text| <= VersionParameters(v).dataCodewords
    ensures g.version == v
    ensures BestTrial(Size(v), v, FullCodewords(text, v, rs), g.mask, g.score, g.matrix)
  {
    var dc := VersionParameters(v).dataCodewords;
    var bitstream := MakeDataBitstream(text, v);
    DataBitstreamLength(text, dc);
    var dataCw := SplitCodewords(bitstream);
    var ecCw := GenerateErrorCorrection(dataCw, v, rs);
    var fullCw := dataCw + ecCw;
    assert fullCw == FullCodewords(text, v, rs);
    var bestMask, lowestScore, bestMatrix := SelectMask(Size(v), v, fullCw);
    g := Generated(v, bestMask, lowestScore, bestMatrix);
  }

  /**
   * `make_v1_data_bitstream(text)`: the version-1 bitstream, for any text.
   * A text of at most 17 bytes gives exactly 19 codewords; below 256 bytes
   * the stream starts with the mode indicator and the length in eight bits.
   */
  function MakeV1DataBitstream(text: seq<Byte>): (bs: string)
    ensures bs == DataBitstream(text, VersionParameters(1).dataCodewords)
    ensures |text| <= 17 ==> |bs| == 152
    ensures |text| < 256 ==> |bs| >= 12 && bs[..4] == MODE_INDICATOR && ParseBinary(bs[4..12]) == |text|
    ensures |text| < 256 ==> forall j :: 0 <= j && |text| + 2 + j < 19 ==>
      var start := 8 * (|text| + 2 + j);
      start + 8 <= |bs| && bs[start..start + 8] == (if j % 2 == 0 then "11101100" else "00010001")
  {
    if |text| < 256 then
      V1Layout(text);
      DataBitstream(text, 19)
    else
      DataBitstream(text, 19)
  }

  /** Length, header and pad codewords of the version-1 stream of fewer than 256 bytes. */
  lemma V1Layout(text: seq<Byte>)
    requires |text| < 256
    ensures var bs := DataBitstream(text, 19);
      && (|text| <= 17 ==> |bs| == 152)
      && |bs| >= 12 && bs[..4] == MODE_INDICATOR && ParseBinary(bs[4..12]) == |text|
      && forall j :: 0 <= j && |text| + 2 + j < 19 ==>
           var start := 8 * (|text| + 2 + j);
           start + 8 <= |bs| && bs[start..start + 8] == (if j % 2 == 0 then "11101100" else "00010001")
  {
    var bs := DataBitstream(text, 19);
    DataBitstreamLength(text, 19);
    DataBitstreamHeader(text, 19);
    forall j | 0 <= j && |text| + 2 + j < 19
      ensures var start := 8 * (|text| + 2 + j);
        start + 8 <= |bs| && bs[start..start + 8] == (if j % 2 == 0 then "11101100" else "00010001")
    {
      DataBitstreamPads(text, 19, j);
    }
  }

  /** `generate_v1_error_correction(data_cw)`: at most seven bytes, the tail of the collaborator's output. */
  function GenerateV1ErrorCorrection(dataCw: seq<Byte>, rs: ReedSolomon): (ec: seq<Byte>)
    ensures |ec| <= 7
    ensures |rs(dataCw, 7)| >= 7 ==> |ec| == 7 && ec == rs(dataCw, 7)[|rs(dataCw, 7)| - 7..]
  {
    GenerateErrorCorrection(dataCw, 1, rs)
  }

  /**
   * The selection of `generate_v1_matrix_and_image(full_cw, ...)`: the loop
   * of `main()` with the version fixed to 1 and the size to 21. Every module
   * of the returned grid is light or dark.
   */
  method GenerateV1Matrix(fullCw: seq<Byte>) returns (bestMatrix: Grid, bestMask: int, lowestScore: int)
    ensures BestTrial(21, 1, fullCw, bestMask, lowestScore, bestMatrix)
    ensures IsSquare(bestMatrix, 21)
    ensures forall r, c :: InBounds(21, r, c) ==> bestMatrix[r][c] in {0, 1}
  {
    var size := VersionParameters(1).size;
    assert size >= 17 && size % 2 == 1;
    bestMask, lowestScore, bestMatrix := SelectMask(size, 1, fullCw);
  }
}

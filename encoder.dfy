/**
 * The bitstream encoder (`make_data_bitstream`), the version choice of the
 * driver, and the adapter around the Reed-Solomon collaborator
 * (`generate_error_correction`).
 */
module Encoder {
  import opened Bits
  import opened Params
  import opened Wrappers

  const PAD_CODEWORDS: seq<string> := ["11101100", "00010001"]

  /** `k` pad codewords, alternating `11101100` and `00010001`, starting with the first. */
  function PadCodewords(k: nat): (s: string)
    ensures |s| == 8 * k && IsBinary(s)
  {
    if k == 0 then [] else PadCodewords(k - 1) + PAD_CODEWORDS[(k - 1) % 2]
  }

  /** Mode indicator, 8-bit (or wider) count indicator, then the payload bytes. */
  function HeaderAndPayload(text: seq<Byte>): string {
    MODE_INDICATOR + Format08b(|text|) + ToBitstring(text)
  }

  /** `min(4, max_bits - len(bitstream))`, where a negative count writes nothing. */
  function Terminator(used: int, maxBits: int): nat {
    if maxBits - used <= 0 then 0 else if maxBits - used < 4 then maxBits - used else 4
  }

  /** Zero bits appended to `s` up to the next byte boundary. */
  function Aligned(s: string): string {
    s + Zeros((8 - |s| % 8) % 8)
  }

  /** Pad codewords appended to `s` until it holds `dataCodewords` codewords (none if it already does). */
  function Padded(s: string, dataCodewords: nat): string {
    s + PadCodewords(PadCount(|s| / 8, dataCodewords))
  }

  /**
   * The data bitstream in closed form: header and payload, terminator, zero
   * bits up to a byte boundary, then as many pad codewords as are needed to
   * reach `dataCodewords` codewords (none if that is already reached or passed).
   */
  function DataBitstream(text: seq<Byte>, dataCodewords: nat): string {
    var p := HeaderAndPayload(text);
    Padded(Aligned(p + Zeros(Terminator(|p|, 8 * dataCodewords))), dataCodewords)
  }

  /** How many pad codewords the padding loop appends after `filled` codewords. */
  function PadCount(filled: int, dataCodewords: nat): nat {
    if filled < dataCodewords then dataCodewords - filled else 0
  }

  /** `make_data_bitstream(text, version)`; `text` is already the ISO-8859-1 encoding. */
  method MakeDataBitstream(text: seq<Byte>, version: int) returns (bitstream: string)
    requires IsVersion(version)
    ensures bitstream == DataBitstream(text, VersionParameters(version).dataCodewords)
  {
    var dataLen := |text|;
    var countIndicator := Format08b(dataLen);
    var maxDataCw := VersionParameters(version).dataCodewords;
    bitstream := MODE_INDICATOR + countIndicator + ToBitstring(text);
    var maxBits := maxDataCw * 8;
    var term := if 4 < maxBits - |bitstream| then 4 else maxBits - |bitstream|;
    assert Zeros(term) == Zeros(Terminator(|bitstream|, maxBits));
    bitstream := bitstream + Zeros(term);
    bitstream := AlignToByte(bitstream);
    bitstream := AppendPadCodewords(bitstream, maxDataCw);
  }

  /** The zero-padding loop of `make_data_bitstream`: append `0` until the length is a multiple of 8. */
  method AlignToByte(s: string) returns (r: string)
    ensures r == Aligned(s) && |r| % 8 == 0 && |r| - |s| < 8
  {
    r := s;
    ghost var k := 0;
    while |r| % 8 != 0
      invariant 0 <= k <= (8 - |s| % 8) % 8
      invariant r == s + Zeros(k)
      decreases (8 - |s| % 8) % 8 - k
    {
      AlignmentZeros(|s|, k);
      AppendAssoc(s, Zeros(k), "0");
      r := r + "0";
      k := k + 1;
    }
    AlignmentZeros(|s|, k);
  }

  /** The padding loop of `make_data_bitstream`: alternate pad codewords until `dataCodewords` codewords. */
  method AppendPadCodewords(s: string, dataCodewords: nat) returns (r: string)
    requires |s| % 8 == 0
    ensures r == Padded(s, dataCodewords)
    ensures |r| / 8 == if |s| / 8 < dataCodewords then dataCodewords else |s| / 8
  {
    var pads := PAD_CODEWORDS;
    r := s;
    var i := 0;
    while |r| / 8 < dataCodewords
      invariant 0 <= i <= PadCount(|s| / 8, dataCodewords)
      invariant r == s + PadCodewords(i)
      decreases PadCount(|s| / 8, dataCodewords) - i
    {
      PadStep(s, i);
      r := r + pads[i % 2];
      i := i + 1;
    }
    WholeCodewords(|s|, i, dataCodewords);
  }

  lemma WholeCodewords(aligned: nat, i: nat, dataCodewords: nat)
    requires aligned % 8 == 0 && i <= PadCount(aligned / 8, dataCodewords)
    requires (aligned + 8 * i) / 8 >= dataCodewords
    ensures i == PadCount(aligned / 8, dataCodewords)
  {
    assert (aligned + 8 * i) / 8 == aligned / 8 + i;
  }

  /** Appending `k` zeros reaches a byte boundary exactly when `k` is the alignment count. */
  lemma AlignmentZeros(x: nat, k: nat)
    requires k <= (8 - x % 8) % 8
    ensures (x + k) % 8 == 0 <==> k == (8 - x % 8) % 8
  {
    var q, r := x / 8, x % 8;
    assert x == 8 * q + r;
    if r == 0 {
      assert k == 0;
    } else {
      assert (8 - r) % 8 == 8 - r;
      assert x + k == 8 * q + (r + k);
      assert 0 < r + k <= 8;
    }
  }

  lemma PadStep(s: string, i: nat)
    ensures s + PadCodewords(i) + PAD_CODEWORDS[i % 2] == s + PadCodewords(i + 1)
  {
  }

  lemma AppendAssoc(a: string, b: string, c: string)
    ensures a + b + c == a + (b + c)
  {
  }

  /**
   * Below 256 bytes the header and payload take 12 + 8n bits, so the
   * terminator is four zero bits when two codewords are left and none otherwise.
   */
  lemma TerminatorCases(text: seq<Byte>, dataCodewords: nat)
    requires |text| < 256
    ensures |HeaderAndPayload(text)| == 12 + 8 * |text|
    ensures Terminator(|HeaderAndPayload(text)|, 8 * dataCodewords)
         == if |text| + 2 <= dataCodewords then 4 else 0
  {
    Format08bOfByte(|text|);
  }

  /** Below 256 bytes the header and payload are followed by exactly four zero bits, then the pads. */
  lemma DataBitstreamParts(text: seq<Byte>, dataCodewords: nat)
    requires |text| < 256
    ensures DataBitstream(text, dataCodewords)
         == HeaderAndPayload(text) + "0000"
          + PadCodewords(PadCount(|text| + 2, dataCodewords))
  {
    var p := HeaderAndPayload(text);
    var t := Terminator(|p|, 8 * dataCodewords);
    var a := (8 - (|p| + t) % 8) % 8;
    assert |p| == 12 + 8 * |text| && t + a == 4 by {
      TerminatorCases(text, dataCodewords);
    }
    var aligned := Aligned(p + Zeros(t));
    assert aligned == p + "0000" by {
      assert Zeros(t) + Zeros(a) == "0000";
      AppendAssoc(p, Zeros(t), Zeros(a));
    }
    assert |aligned| / 8 == |text| + 2;
  }

  lemma SliceParts(m: string, c: string, d: string, z: string, pads: string)
    requires |m| == 4 && |c| == 8 && |z| == 4
    ensures var s := m + c + d + z + pads;
      && s[..4] == m && s[4..12] == c && s[12..12 + |d|] == d && s[12 + |d|..16 + |d|] == z
  {
    var s := m + c + d + z + pads;
    assert s[..4] == m;
    assert s[4..12] == c;
    assert s[12..12 + |d|] == d;
    assert s[12 + |d|..16 + |d|] == z;
  }

  /**
   * For `|text| < 256` the bitstream is `8 * max(dataCodewords, |text| + 2)`
   * bits long: exactly the capacity when the text fits, one or two codewords
   * more when the length check admitted a text of capacity - 1 or capacity bytes.
   */
  lemma DataBitstreamLength(text: seq<Byte>, dataCodewords: nat)
    requires |text| < 256
    ensures var bs := DataBitstream(text, dataCodewords);
      && IsBinary(bs) && |bs| % 8 == 0
      && |bs| == 8 * (if |text| + 2 <= dataCodewords then dataCodewords else |text| + 2)
  {
    DataBitstreamParts(text, dataCodewords);
    var n := |text|;
    var p := HeaderAndPayload(text);
    var k := PadCount(n + 2, dataCodewords);
    var pads := PadCodewords(k);
    assert IsBinary(p) && |p| == 12 + 8 * n by {
      Format08bOfByte(n);
      BinaryAppend(MODE_INDICATOR, Format08b(n));
      BinaryAppend(MODE_INDICATOR + Format08b(n), ToBitstring(text));
    }
    TerminatedLength(p, pads, n, k);
    assert n + 2 + k == if n + 2 <= dataCodewords then dataCodewords else n + 2;
    assert DataBitstream(text, dataCodewords) == p + "0000" + pads;
  }

  /** Header and payload, the four terminator bits and `k` pad codewords fill whole codewords. */
  lemma TerminatedLength(p: string, pads: string, n: nat, k: nat)
    requires IsBinary(p) && |p| == 12 + 8 * n && IsBinary(pads) && |pads| == 8 * k
    ensures var q := p + "0000" + pads;
      IsBinary(q) && |q| == 8 * (n + 2 + k) && |q| % 8 == 0
  {
    BinaryAppend(p, "0000");
    BinaryAppend(p + "0000", pads);
  }

  /** The bitstream starts with the mode indicator `0100` and the length as eight binary digits. */
  lemma DataBitstreamHeader(text: seq<Byte>, dataCodewords: nat)
    requires |text| < 256
    ensures var bs := DataBitstream(text, dataCodewords);
      && |bs| >= 12
      && bs[..4] == MODE_INDICATOR
      && bs[4..12] == Format08b(|text|) && ParseBinary(bs[4..12]) == |text|
  {
    DataBitstreamParts(text, dataCodewords);
    var n := |text|;
    assert |Format08b(n)| == 8 && ParseBinary(Format08b(n)) == n by { Format08bOfByte(n); }
    var pads := PadCodewords(PadCount(n + 2, dataCodewords));
    SliceParts(MODE_INDICATOR, Format08b(n), ToBitstring(text), "0000", pads);
  }

  /** Then come the payload bytes, most significant bit first, and four zero bits. */
  lemma DataBitstreamPayload(text: seq<Byte>, dataCodewords: nat)
    requires |text| < 256
    ensures var bs := DataBitstream(text, dataCodewords);
      && |bs| >= 16 + 8 * |text|
      && bs[12..12 + 8 * |text|] == ToBitstring(text)
      && bs[12 + 8 * |text|..16 + 8 * |text|] == "0000"
  {
    DataBitstreamParts(text, dataCodewords);
    var n := |text|;
    assert |Format08b(n)| == 8 by { Format08bOfByte(n); }
    var pads := PadCodewords(PadCount(n + 2, dataCodewords));
    SliceParts(MODE_INDICATOR, Format08b(n), ToBitstring(text), "0000", pads);
  }

  lemma BinaryAppend(a: string, b: string)
    requires IsBinary(a) && IsBinary(b)
    ensures IsBinary(a + b)
  {
  }

  /** The `j`-th of the pad codewords is `11101100` for even `j` and `00010001` for odd `j`. */
  lemma {:induction false} PadCodewordAt(k: nat, j: nat)
    requires j < k
    ensures PadCodewords(k)[8 * j..8 * j + 8] == PAD_CODEWORDS[j % 2]
  {
    if j < k - 1 {
      PadCodewordAt(k - 1, j);
      assert PadCodewords(k)[..8 * (k - 1)] == PadCodewords(k - 1);
    }
  }

  /** After the 16 + 8n bits of header, payload and terminator come alternating pad codewords up to the capacity. */
  lemma DataBitstreamPads(text: seq<Byte>, dataCodewords: nat, j: nat)
    requires |text| < 256 && |text| + 2 + j < dataCodewords
    ensures var bs := DataBitstream(text, dataCodewords);
      var start := 8 * (|text| + 2 + j);
      start + 8 <= |bs| && bs[start..start + 8] == (if j % 2 == 0 then "11101100" else "00010001")
  {
    DataBitstreamParts(text, dataCodewords);
    TerminatorCases(text, dataCodewords);
    var n := |text|;
    var k := dataCodewords - (n + 2);
    var prefix := HeaderAndPayload(text) + "0000";
    var bs := DataBitstream(text, dataCodewords);
    assert bs == prefix + PadCodewords(k);
    PadCodewordAt(k, j);
    SliceAfter(prefix, PadCodewords(k), 8 * j, 8 * j + 8);
  }

  /**
   * The version choice of `main()`: the first version in [1, 2] whose
   * data-codeword capacity is at least the text length; None when neither is.
   */
  method ChooseVersion(textLength: nat) returns (version: Option<int>)
    ensures version.Some? ==>
      && IsVersion(version.value)
      && textLength <= VersionParameters(version.value).dataCodewords
      && forall w :: IsVersion(w) && w < version.value ==> textLength > VersionParameters(w).dataCodewords
    ensures version.None? <==> forall w :: IsVersion(w) ==> textLength > VersionParameters(w).dataCodewords
  {
    var candidates := [1, 2];
    var k := 0;
    while k < |candidates|
      invariant 0 <= k <= |candidates|
      invariant forall w :: IsVersion(w) && w <= k ==> textLength > VersionParameters(w).dataCodewords
    {
      if textLength <= VersionParameters(candidates[k]).dataCodewords {
        return Some(candidates[k]);
      }
      k := k + 1;
    }
    return None;
  }

  /**
   * The Reed-Solomon collaborator, `RSCodec(nsym).encode(bytes(data))`: the
   * model does not define it; a systematic encoder returns the data followed
   * by `nsym` redundancy bytes.
   */
  type ReedSolomon = (seq<Byte>, nat) -> seq<Byte>

  /** `generate_error_correction`: the last `ec_codewords` bytes of the collaborator's output. */
  function GenerateErrorCorrection(dataCw: seq<Byte>, version: int, rs: ReedSolomon): (ec: seq<Byte>)
    requires IsVersion(version)
    ensures var nsym := VersionParameters(version).ecCodewords;
      && var full := rs(dataCw, nsym);
      && |ec| == (if |full| < nsym then |full| else nsym)
      && full == full[..|full| - |ec|] + ec
  {
    var nsym := VersionParameters(version).ecCodewords;
    var full := rs(dataCw, nsym);
    if |full| < nsym then full else full[|full| - nsym..]
  }
}

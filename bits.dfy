/**
 * Strings of binary digits, the representation the encoder works on
 * throughout: Python's `f'{b:08b}'`, `to_bitstring` and `int(s, 2)`.
 */
module Bits {

  /** One element of a Python `bytes` object. */
  type Byte = x: int | 0 <= x < 256

  /** Every character is '0' or '1'. */
  predicate IsBinary(s: string) {
    forall i :: 0 <= i < |s| ==> s[i] == '0' || s[i] == '1'
  }

  /** Python's `int(ch)` for a single binary digit. */
  function DigitValue(ch: char): int {
    if ch == '1' then 1 else 0
  }

  function Digit(b: int): char
    requires b == 0 || b == 1
  {
    if b == 0 then '0' else '1'
  }

  /** `'0' * k`; like Python, a negative count gives the empty string. */
  function Zeros(k: int): (s: string)
    ensures |s| == if k <= 0 then 0 else k
    ensures forall i :: 0 <= i < |s| ==> s[i] == '0'
  {
    if k <= 0 then [] else Zeros(k - 1) + "0"
  }

  /** `format(n, 'b')`: the shortest binary numeral of `n`, most significant digit first. */
  function Binary(n: nat): (s: string)
    ensures |s| >= 1 && IsBinary(s)
  {
    if n < 2 then [Digit(n)] else Binary(n / 2) + [Digit(n % 2)]
  }

  /** `f'{n:0{w}b}'`: the numeral left-padded with zeros to at least `w` digits. */
  function PadBinary(n: nat, w: nat): string {
    Zeros(w - |Binary(n)|) + Binary(n)
  }

  /** `f'{n:08b}'`. */
  function Format08b(n: nat): string {
    PadBinary(n, 8)
  }

  /** `int(s, 2)` on a non-empty binary numeral (an empty one has value 0 here). */
  function ParseBinary(s: string): nat
    requires IsBinary(s)
  {
    if s == [] then 0 else 2 * ParseBinary(s[..|s| - 1]) + DigitValue(s[|s| - 1])
  }

  function Pow2(k: nat): nat {
    if k == 0 then 1 else 2 * Pow2(k - 1)
  }

  lemma {:induction false} ParseBinaryOfBinary(n: nat)
    ensures ParseBinary(Binary(n)) == n
  {
    if n >= 2 {
      var s := Binary(n);
      assert s[..|s| - 1] == Binary(n / 2);
      ParseBinaryOfBinary(n / 2);
    }
  }

  lemma {:induction false} ParseBinaryBound(s: string)
    requires IsBinary(s)
    ensures ParseBinary(s) < Pow2(|s|)
  {
    if s != [] {
      ParseBinaryBound(s[..|s| - 1]);
    }
  }

  lemma {:induction false} BinaryLength(n: nat, w: nat)
    requires 1 <= w && n < Pow2(w)
    ensures |Binary(n)| <= w
  {
    if n >= 2 {
      BinaryLength(n / 2, w - 1);
    }
  }

  /** Leading zeros do not change the value of a numeral. */
  lemma {:induction false} ParseBinaryLeadingZeros(k: int, s: string)
    requires IsBinary(s)
    ensures IsBinary(Zeros(k) + s)
    ensures ParseBinary(Zeros(k) + s) == ParseBinary(s)
  {
    if s != [] {
      var t := Zeros(k) + s;
      assert t[..|t| - 1] == Zeros(k) + s[..|s| - 1];
      ParseBinaryLeadingZeros(k, s[..|s| - 1]);
    } else {
      ParseZeros(k);
      assert Zeros(k) + s == Zeros(k);
    }
  }

  lemma {:induction false} ParseZeros(k: int)
    ensures IsBinary(Zeros(k)) && ParseBinary(Zeros(k)) == 0
  {
    if k > 0 {
      var z := Zeros(k);
      assert z == Zeros(k - 1) + "0";
      assert z[..|z| - 1] == Zeros(k - 1) && z[|z| - 1] == '0';
      ParseZeros(k - 1);
    }
  }

  /** A binary numeral whose value is 0 consists of zeros only. */
  lemma {:induction false} ZeroValueIsZeros(s: string)
    requires IsBinary(s) && ParseBinary(s) == 0
    ensures s == Zeros(|s|)
  {
    if s != [] {
      ZeroValueIsZeros(s[..|s| - 1]);
      assert s == s[..|s| - 1] + [s[|s| - 1]];
    }
  }

  /** `f'{n:0{w}b}'` for `n < 2^w` has exactly `w` binary digits and reads back as `n`. */
  lemma PadBinaryRoundTrip(n: nat, w: nat)
    requires 1 <= w && n < Pow2(w)
    ensures |PadBinary(n, w)| == w && IsBinary(PadBinary(n, w))
    ensures ParseBinary(PadBinary(n, w)) == n
  {
    BinaryLength(n, w);
    ParseBinaryLeadingZeros(w - |Binary(n)|, Binary(n));
    ParseBinaryOfBinary(n);
  }

  /** Re-formatting a `w`-digit numeral with `w` digits gives the numeral back. */
  lemma {:induction false} PadBinaryOfParse(s: string)
    requires IsBinary(s) && |s| >= 1
    ensures ParseBinary(s) < Pow2(|s|)
    ensures PadBinary(ParseBinary(s), |s|) == s
  {
    ParseBinaryBound(s);
    var t, d := s[..|s| - 1], s[|s| - 1];
    assert s == t + [d];
    var p := ParseBinary(t);
    var v := ParseBinary(s);
    assert v == 2 * p + DigitValue(d);
    if |s| == 1 {
      assert t == [];
    } else if p == 0 {
      ZeroValueIsZeros(t);
      assert Binary(v) == [d];
    } else {
      PadBinaryOfParse(t);
      assert v / 2 == p && v % 2 == DigitValue(d);
      assert Binary(v) == Binary(p) + [d];
      assert |Binary(p)| <= |t|;
      assert Zeros(|s| - |Binary(v)|) == Zeros(|t| - |Binary(p)|);
    }
  }

  lemma Format08bOfByte(b: Byte)
    ensures |Format08b(b)| == 8 && IsBinary(Format08b(b))
    ensures ParseBinary(Format08b(b)) == b
  {
    assert Pow2(8) == 256;
    PadBinaryRoundTrip(b, 8);
  }

  /** `to_bitstring`: each byte as eight binary digits, most significant bit first. */
  function ToBitstring(data: seq<Byte>): (s: string)
    ensures |s| == 8 * |data| && IsBinary(s)
  {
    if data == [] then "" else Format08bOfByte(data[0]); Format08b(data[0]) + ToBitstring(data[1..])
  }

  /** The `k`-th 8-character slice of `to_bitstring(data)` is byte `k` written out. */
  lemma {:induction false} ToBitstringSlice(data: seq<Byte>, k: nat)
    requires k < |data|
    ensures ToBitstring(data)[8 * k .. 8 * k + 8] == Format08b(data[k])
    ensures ParseBinary(ToBitstring(data)[8 * k .. 8 * k + 8]) == data[k]
  {
    if k > 0 {
      assert ToBitstring(data)[8 * k .. 8 * k + 8] == Format08b(data[k]) by {
        ToBitstringSlice(data[1..], k - 1);
        Format08bOfByte(data[0]);
        SliceAfter(Format08b(data[0]), ToBitstring(data[1..]), 8 * (k - 1), 8 * (k - 1) + 8);
      }
    }
    Format08bOfByte(data[k]);
  }

  lemma SliceAfter(a: string, b: string, i: nat, j: nat)
    requires i <= j <= |b|
    ensures (a + b)[|a| + i .. |a| + j] == b[i..j]
  {
  }

  lemma ToBitstringAppend(a: seq<Byte>, b: seq<Byte>)
    ensures ToBitstring(a + b) == ToBitstring(a) + ToBitstring(b)
  {
    if a != [] {
      assert (a + b)[1..] == a[1..] + b;
      ToBitstringAppend(a[1..], b);
    } else {
      assert a + b == b;
    }
  }

  /**
   * The codeword split of `main.py`: `[int(s[i:i+8], 2) for i in range(0, len(s), 8)]`.
   * A trailing slice shorter than eight digits is read as it is.
   */
  function SplitCodewords(s: string): (cw: seq<Byte>)
    requires IsBinary(s)
    ensures |cw| == (|s| + 7) / 8
    decreases |s|
  {
    if s == [] then []
    else
      var w := if |s| < 8 then |s| else 8;
      ParseBinaryBound(s[..w]);
      assert Pow2(w) <= 256 by { PowMonotone(w, 8); }
      [ParseBinary(s[..w])] + SplitCodewords(s[w..])
  }

  lemma {:induction false} PowMonotone(a: nat, b: nat)
    requires a <= b
    ensures Pow2(a) <= Pow2(b)
  {
    if a < b {
      PowMonotone(a, b - 1);
    }
  }

  /** Splitting a whole number of bytes and writing each codeword back with `08b` gives the bitstream back. */
  lemma {:induction false} SplitThenJoin(s: string)
    requires IsBinary(s) && |s| % 8 == 0
    ensures ToBitstring(SplitCodewords(s)) == s
  {
    if s != [] {
      PadBinaryOfParse(s[..8]);
      SplitThenJoin(s[8..]);
      assert s == s[..8] + s[8..];
    }
  }

  /** Writing bytes out and splitting them again gives the bytes back. */
  lemma {:induction false} JoinThenSplit(data: seq<Byte>)
    ensures SplitCodewords(ToBitstring(data)) == data
  {
    if data != [] {
      var s := ToBitstring(data);
      Format08bOfByte(data[0]);
      assert s[..8] == Format08b(data[0]);
      assert s[8..] == ToBitstring(data[1..]);
      JoinThenSplit(data[1..]);
    }
  }
}

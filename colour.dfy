/**
 * `ansi_to_rgb` of `utils.py`: a colour given as `#rrggbb`, as one of ten
 * colour names, or as an ANSI SGR colour code (`\033[31m`, `31` or the
 * integer 31) becomes an RGB triple; anything else becomes None.
 */
module Colour {
  import opened Wrappers

  /** The kinds of argument `ansi_to_rgb` is called with: a string, an integer, or None. */
  datatype ColourArg = Str(s: string) | Int(n: int) | NoneValue

  type Rgb = (int, int, int)

  predicate IsByteTriple(c: Rgb) {
    0 <= c.0 < 256 && 0 <= c.1 < 256 && 0 <= c.2 < 256
  }

  /** `ANSI_RGB_MAP`: the sixteen standard and bright foreground codes. */
  const ANSI_RGB_MAP: map<int, Rgb> := map[
    30 := (0, 0, 0), 31 := (128, 0, 0), 32 := (0, 128, 0), 33 := (128, 128, 0),
    34 := (0, 0, 128), 35 := (128, 0, 128), 36 := (0, 128, 128), 37 := (192, 192, 192),
    90 := (128, 128, 128), 91 := (255, 0, 0), 92 := (0, 255, 0), 93 := (255, 255, 0),
    94 := (0, 0, 255), 95 := (255, 0, 255), 96 := (0, 255, 255), 97 := (255, 255, 255)
  ]

  /** `named_colors`, keyed by lower-case name. */
  const NAMED_COLOURS: map<string, Rgb> := map[
    "black" := (0, 0, 0), "white" := (255, 255, 255), "red" := (255, 0, 0),
    "green" := (0, 255, 0), "blue" := (0, 0, 255), "yellow" := (255, 255, 0),
    "cyan" := (0, 255, 255), "magenta" := (255, 0, 255),
    "gray" := (128, 128, 128), "grey" := (128, 128, 128)
  ]

  const ESCAPE_PREFIX: string := "\U{1b}["

  /** `not ansi_code`: the empty string, the integer 0 and None are false. */
  predicate Falsy(arg: ColourArg) {
    arg == Str("") || arg == Int(0) || arg.NoneValue?
  }

  /** The `#rrggbb` test: a string of length 7 starting with `#`. */
  predicate IsHexForm(arg: ColourArg) {
    arg.Str? && |arg.s| == 7 && arg.s[0] == '#'
  }

  predicate IsHexDigit(ch: char) {
    '0' <= ch <= '9' || 'a' <= ch <= 'f' || 'A' <= ch <= 'F'
  }

  function HexDigitValue(ch: char): (v: nat)
    requires IsHexDigit(ch)
    ensures v < 16
  {
    if '0' <= ch <= '9' then ch as int - '0' as int
    else if 'a' <= ch <= 'f' then ch as int - 'a' as int + 10
    else ch as int - 'A' as int + 10
  }

  /** `int(pair, 16)` for a pair of hex digits; None stands for the `ValueError`. */
  function ParseHexPair(s: string): (v: Option<nat>)
    requires |s| == 2
    ensures v.Some? <==> IsHexDigit(s[0]) && IsHexDigit(s[1])
    ensures v.Some? ==> v.value < 256
  {
    if IsHexDigit(s[0]) && IsHexDigit(s[1]) then Some(16 * HexDigitValue(s[0]) + HexDigitValue(s[1])) else None
  }

  /** The three pairs at 1, 3 and 5 of a `#rrggbb` string; a pair that does not parse makes the whole None. */
  function HexTriple(s: string): Option<Rgb>
    requires |s| == 7
  {
    match (ParseHexPair(s[1..3]), ParseHexPair(s[3..5]), ParseHexPair(s[5..7]))
    case (Some(r), Some(g), Some(b)) => Some((r, g, b))
    case _ => None
  }

  /** `str.lower()` on the ASCII letters. */
  function LowerChar(ch: char): char {
    if 'A' <= ch <= 'Z' then (ch as int - 'A' as int + 'a' as int) as char else ch
  }

  function Lower(s: string): (t: string)
    ensures |t| == |s| && forall i :: 0 <= i < |s| ==> t[i] == LowerChar(s[i])
  {
    if s == [] then [] else [LowerChar(s[0])] + Lower(s[1..])
  }

  /** The ASCII characters Python's `str.strip()` removes. */
  predicate IsSpace(ch: char) {
    ch == ' ' || '\t' <= ch <= '\r' || '\U{1c}' <= ch <= '\U{1f}'
  }

  function StripLeft(s: string): (t: string)
    ensures |t| <= |s|
  {
    if s != [] && IsSpace(s[0]) then StripLeft(s[1..]) else s
  }

  function StripRight(s: string): (t: string)
    ensures |t| <= |s|
  {
    if s != [] && IsSpace(s[|s| - 1]) then StripRight(s[..|s| - 1]) else s
  }

  /** `str.strip()`. */
  function Strip(s: string): string {
    StripRight(StripLeft(s))
  }

  /** `s.replace(pat, '')`: every occurrence of `pat`, scanning left to right without overlaps, removed. */
  function RemoveAll(s: string, pat: string): string
    requires pat != []
    decreases |s|
  {
    if |pat| <= |s| && s[..|pat|] == pat then RemoveAll(s[|pat|..], pat)
    else if s == [] then []
    else [s[0]] + RemoveAll(s[1..], pat)
  }

  predicate IsDigits(s: string) {
    s != [] && forall i :: 0 <= i < |s| ==> '0' <= s[i] <= '9'
  }

  /** The value of a string of decimal digits, most significant first. */
  function DigitsValue(s: string): nat
    requires forall i :: 0 <= i < |s| ==> '0' <= s[i] <= '9'
  {
    if s == [] then 0 else 10 * DigitsValue(s[..|s| - 1]) + (s[|s| - 1] as int - '0' as int)
  }

  /** `int(s)` on a plain decimal string; None stands for the `ValueError`. */
  function ParseDecimal(s: string): Option<int> {
    if IsDigits(s) then Some(DigitsValue(s)) else None
  }

  /** `ANSI_RGB_MAP.get(code)`. */
  function LookupCode(code: int): (r: Option<Rgb>)
    ensures r.Some? <==> code in ANSI_RGB_MAP
    ensures r.Some? ==> r.value == ANSI_RGB_MAP[code] && IsByteTriple(r.value)
  {
    if code in ANSI_RGB_MAP then Some(ANSI_RGB_MAP[code]) else None
  }

  /**
   * The code the last step of `ansi_to_rgb` reads: `int(str(ansi_code).strip()
   * .replace('\033[', '').replace('m', ''))`; for an integer that is the
   * integer itself.
   */
  function AnsiCode(arg: ColourArg): Option<int> {
    match arg
    case Str(s) => ParseDecimal(RemoveAll(RemoveAll(Strip(s), ESCAPE_PREFIX), "m"))
    case Int(n) => Some(n)
    case NoneValue => None
  }

  /**
   * `ansi_to_rgb(ansi_code)`. It never raises: every failing parse is None.
   * A falsy argument gives None; a `#rrggbb` string gives its three hex
   * pairs or, when one does not parse, None without trying the other forms;
   * every colour returned is a triple of bytes.
   */
  function AnsiToRgb(arg: ColourArg): (r: Option<Rgb>)
    ensures Falsy(arg) ==> r.None?
    ensures !Falsy(arg) && IsHexForm(arg) ==>
      (r.Some? <==> forall k :: 1 <= k < 7 ==> IsHexDigit(arg.s[k]))
    ensures r.Some? ==> IsByteTriple(r.value)
  {
    if Falsy(arg) then None
    else if IsHexForm(arg) then HexTriple(arg.s)
    else if arg.Str? && Lower(arg.s) in NAMED_COLOURS then Some(NAMED_COLOURS[Lower(arg.s)])
    else
      var code := AnsiCode(arg);
      if code.Some? then LookupCode(code.value) else None
  }

  /** The lower-case hex digit of a value below 16. */
  function HexChar(d: nat): char
    requires d < 16
  {
    if d < 10 then (d + '0' as int) as char else (d - 10 + 'a' as int) as char
  }

  /** The two lower-case hex digits of a byte. */
  function Hex2(b: nat): string
    requires b < 256
  {
    [HexChar(b / 16), HexChar(b % 16)]
  }

  lemma Hex2Parses(b: nat)
    requires b < 256
    ensures ParseHexPair(Hex2(b)) == Some(b)
  {
    var hi, lo := HexChar(b / 16), HexChar(b % 16);
    assert IsHexDigit(hi) && HexDigitValue(hi) == b / 16;
    assert IsHexDigit(lo) && HexDigitValue(lo) == b % 16;
  }

  /** A colour written as `#rrggbb` in lower-case hex reads back as itself. */
  lemma HexRoundTrip(c: Rgb)
    requires IsByteTriple(c)
    ensures AnsiToRgb(Str("#" + Hex2(c.0) + Hex2(c.1) + Hex2(c.2))) == Some(c)
  {
    var s := "#" + Hex2(c.0) + Hex2(c.1) + Hex2(c.2);
    assert s[1..3] == Hex2(c.0) && s[3..5] == Hex2(c.1) && s[5..7] == Hex2(c.2);
    Hex2Parses(c.0);
    Hex2Parses(c.1);
    Hex2Parses(c.2);
  }

  /**
   * A `#rrggbb` string of six hex digits, in either case, gives the values
   * of its three pairs: `#FF8000` is (255, 128, 0).
   */
  lemma HexValues(s: string)
    requires IsHexForm(Str(s)) && forall k :: 1 <= k < 7 ==> IsHexDigit(s[k])
    ensures AnsiToRgb(Str(s)) == Some((
      16 * HexDigitValue(s[1]) + HexDigitValue(s[2]),
      16 * HexDigitValue(s[3]) + HexDigitValue(s[4]),
      16 * HexDigitValue(s[5]) + HexDigitValue(s[6])))
  {
    assert s[1..3][0] == s[1] && s[1..3][1] == s[2];
    assert s[3..5][0] == s[3] && s[3..5][1] == s[4];
    assert s[5..7][0] == s[5] && s[5..7][1] == s[6];
  }

  /** Lower-casing a pair changes neither whether it parses nor its value. */
  lemma PairLower(p: string, q: string)
    requires |p| == 2 && |q| == 2 && q[0] == LowerChar(p[0]) && q[1] == LowerChar(p[1])
    ensures ParseHexPair(q) == ParseHexPair(p)
  {
    assert IsHexDigit(p[0]) ==> HexDigitValue(q[0]) == HexDigitValue(p[0]);
    assert IsHexDigit(p[1]) ==> HexDigitValue(q[1]) == HexDigitValue(p[1]);
  }

  /** `#rrggbb` is read the same whatever the case of its hex digits. */
  lemma HexCaseInsensitive(s: string)
    requires IsHexForm(Str(s))
    ensures IsHexForm(Str(Lower(s)))
    ensures AnsiToRgb(Str(s)) == AnsiToRgb(Str(Lower(s)))
  {
    var t := Lower(s);
    PairLower(s[1..3], t[1..3]);
    PairLower(s[3..5], t[3..5]);
    PairLower(s[5..7], t[5..7]);
  }

  lemma {:induction false} LowerTwice(s: string)
    ensures Lower(Lower(s)) == Lower(s)
  {
    if s != [] {
      LowerTwice(s[1..]);
      assert Lower(s)[1..] == Lower(s[1..]);
    }
  }

  /** A string whose lower-case form is one of the ten names gives that name's colour. */
  lemma NamedLookup(s: string)
    requires Lower(s) in NAMED_COLOURS
    ensures AnsiToRgb(Str(s)) == Some(NAMED_COLOURS[Lower(s)])
  {
    var name := Lower(s);
    assert |name| != 7 || name[0] != '#' by {
      assert name in NAMED_COLOURS.Keys;
    }
    assert name[0] == LowerChar(s[0]);
  }

  /**
   * Names match whatever their case: a name written in any case gives the
   * same colour as its lower-case form.
   */
  lemma NamedCaseInsensitive(s: string)
    requires Lower(s) in NAMED_COLOURS
    ensures AnsiToRgb(Str(s)) == AnsiToRgb(Str(Lower(s))) == Some(NAMED_COLOURS[Lower(s)])
  {
    NamedLookup(s);
    LowerTwice(s);
    NamedLookup(Lower(s));
  }

  /** `gray` and `grey`, in any case, are both (128, 128, 128). */
  lemma GreyIsGray(s: string)
    requires Lower(s) == "gray" || Lower(s) == "grey"
    ensures AnsiToRgb(Str(s)) == Some((128, 128, 128))
  {
    NamedCaseInsensitive(s);
  }

  /** The decimal digits of a number, most significant first, with no leading zero. */
  function Decimal(n: nat): (s: string)
    ensures IsDigits(s)
  {
    if n < 10 then [(n + '0' as int) as char] else Decimal(n / 10) + [(n % 10 + '0' as int) as char]
  }

  lemma {:induction false} DecimalValue(n: nat)
    ensures DigitsValue(Decimal(n)) == n
  {
    if n >= 10 {
      DecimalValue(n / 10);
      var s := Decimal(n);
      assert s[..|s| - 1] == Decimal(n / 10);
    }
  }

  lemma {:induction false} RemoveAbsent(s: string, pat: string)
    requires pat != [] && forall i :: 0 <= i < |s| ==> s[i] != pat[0]
    ensures RemoveAll(s, pat) == s
  {
    if s != [] {
      if |pat| <= |s| {
        assert s[..|pat|][0] == s[0];
      }
      RemoveAbsent(s[1..], pat);
    }
  }

  /** Removing a one-character pattern that only occurs at the very end. */
  lemma {:induction false} RemoveTrailing(s: string, pat: string)
    requires |pat| == 1 && forall i :: 0 <= i < |s| ==> s[i] != pat[0]
    ensures RemoveAll(s + pat, pat) == s
  {
    if s == [] {
      assert RemoveAll(pat, pat) == RemoveAll([], pat);
    } else {
      assert (s + pat)[..1][0] == s[0];
      assert (s + pat)[1..] == s[1..] + pat;
      RemoveTrailing(s[1..], pat);
    }
  }

  /** The code read from `\033[<digits>m` is the value of the digits. */
  lemma EscapeCode(d: string)
    requires IsDigits(d)
    ensures AnsiCode(Str(ESCAPE_PREFIX + d + "m")) == Some(DigitsValue(d))
  {
    var s := ESCAPE_PREFIX + d + "m";
    assert StripLeft(s) == s;
    assert Strip(s) == s;
    assert s[..|ESCAPE_PREFIX|] == ESCAPE_PREFIX;
    assert s[|ESCAPE_PREFIX|..] == d + "m";
    RemoveAbsent(d + "m", ESCAPE_PREFIX);
    RemoveTrailing(d, "m");
  }

  /** No colour name starts with the escape character. */
  lemma EscapeNotNamed(s: string)
    requires s != [] && s[0] == '\U{1b}'
    ensures Lower(s) !in NAMED_COLOURS
  {
    assert Lower(s)[0] == '\U{1b}';
  }

  /** An escape sequence `\033[<digits>m` is looked up by the value of its digits. */
  lemma EscapeSequence(d: string)
    requires IsDigits(d)
    ensures AnsiToRgb(Str(ESCAPE_PREFIX + d + "m")) == LookupCode(DigitsValue(d))
  {
    var s := ESCAPE_PREFIX + d + "m";
    EscapeCode(d);
    EscapeNotNamed(s);
  }

  /** A plain string of decimal digits, such as `31`, is looked up by its value. */
  lemma PlainDecimal(d: string)
    requires IsDigits(d)
    ensures AnsiToRgb(Str(d)) == LookupCode(DigitsValue(d))
  {
    DigitsNotNamed(d);
    DigitsCode(d);
  }

  /** No colour name starts with a decimal digit. */
  lemma DigitsNotNamed(s: string)
    requires s != [] && '0' <= s[0] <= '9'
    ensures Lower(s) !in NAMED_COLOURS
  {
    assert Lower(s)[0] == s[0];
  }

  /** The code read from a plain string of digits is the value of the digits. */
  lemma DigitsCode(d: string)
    requires IsDigits(d)
    ensures AnsiCode(Str(d)) == Some(DigitsValue(d))
  {
    assert StripLeft(d) == d;
    assert Strip(d) == d;
    RemoveAbsent(d, ESCAPE_PREFIX);
    RemoveAbsent(d, "m");
  }

  /** An integer argument other than 0 is looked up as it is; 0 is falsy. */
  lemma IntegerCode(n: int)
    ensures AnsiToRgb(Int(n)) == (if n == 0 then None else LookupCode(n))
  {
  }

  /**
   * An escape sequence `\033[<code>m` for a code of `ANSI_RGB_MAP`, and the
   * integer code itself, give the colour the table lists.
   */
  lemma AnsiEscapeLookup(code: nat)
    requires code in ANSI_RGB_MAP
    ensures AnsiToRgb(Str(ESCAPE_PREFIX + Decimal(code) + "m")) == Some(ANSI_RGB_MAP[code])
    ensures AnsiToRgb(Int(code)) == Some(ANSI_RGB_MAP[code])
  {
    EscapeSequence(Decimal(code));
    DecimalValue(code);
    IntegerCode(code);
  }
}

/** `hexToVec3` of main.js: a colour written `#rrggbb` becomes three channels,
    each `parseInt(hex.slice(k, k + 2), 16) / 255`.

    `String.prototype.slice` and `parseInt` are modelled for every input, so
    nothing is demanded of the string: a malformed colour gives whatever
    JavaScript gives, with `NaN` as `NaN`.  The division by 255 is kept
    symbolic: a channel records the integer that is divided. */
module HexColor {
  import opened Wrappers
  import opened JsText

  /** One component of the `Vector3`: `NaN`, or the number `byte / 255`. */
  datatype Channel = NaN | Scaled(byte: int)

  datatype Vec3 = Vec3(r: Channel, g: Channel, b: Channel)

  /** A value a well-formed colour channel can hold. */
  type Byte = n: int | 0 <= n < 256

  // ---------------------------------------------------------------------
  // Hex digits
  // ---------------------------------------------------------------------

  predicate IsHexDigit(c: char)
  {
    ('0' <= c <= '9') || ('a' <= c <= 'f') || ('A' <= c <= 'F')
  }

  function DigitValue(c: char): (d: nat)
    requires IsHexDigit(c)
    ensures d < 16
  {
    if '0' <= c <= '9' then c as nat - '0' as nat
    else if 'a' <= c <= 'f' then c as nat - 'a' as nat + 10
    else c as nat - 'A' as nat + 10
  }

  /** The lower-case digit a colour picker writes for `d`. */
  function Digit(d: nat): (c: char)
    requires d < 16
    ensures IsHexDigit(c) && DigitValue(c) == d
  {
    if d < 10 then ('0' as nat + d) as char else ('a' as nat + d - 10) as char
  }

  ghost predicate AllHexDigits(z: string)
  {
    forall k :: 0 <= k < |z| ==> IsHexDigit(z[k])
  }

  function Pow16(n: nat): (p: nat)
    ensures p > 0
  {
    if n == 0 then 1 else 16 * Pow16(n - 1)
  }

  /** The number the digits `z` denote in base 16, most significant first. */
  function DigitsValue(z: string): (v: nat)
    requires AllHexDigits(z)
    ensures v < Pow16(|z|)
  {
    if z == [] then 0 else 16 * DigitsValue(z[..|z| - 1]) + DigitValue(z[|z| - 1])
  }

  /** The length of the longest prefix of `s` made of hex digits. */
  function HexPrefixLength(s: string): (n: nat)
    ensures n <= |s|
    ensures AllHexDigits(s[..n])
    ensures n < |s| ==> !IsHexDigit(s[n])
  {
    if s != [] && IsHexDigit(s[0]) then 1 + HexPrefixLength(s[1..]) else 0
  }

  // ---------------------------------------------------------------------
  // The JavaScript library functions used
  // ---------------------------------------------------------------------

  /** `s.slice(start, end)` for non-negative indices: both are clamped to the length. */
  function Slice(s: string, start: nat, end: nat): (r: string)
    ensures |r| <= if end <= start then 0 else end - start
    ensures r != [] ==> start + |r| <= |s|
    ensures forall k :: 0 <= k < |r| ==> r[k] == s[start + k]
    ensures start < |s| && start < end ==> |r| == (if end < |s| then end else |s|) - start
    ensures start >= |s| || end <= start ==> r == []
  {
    var from := if start < |s| then start else |s|;
    var to := if end < |s| then end else |s|;
    if from < to then s[from..to] else []
  }

  /** White space trimmed from the front, as `parseInt` does first. */
  function TrimStart(s: string): (r: string)
    ensures |r| <= |s| && r == s[|s| - |r|..]
    ensures r != [] ==> !IsSpace(r[0])
    ensures forall k :: 0 <= k < |s| - |r| ==> IsSpace(s[k])
  {
    if s != [] && IsSpace(s[0]) then TrimStart(s[1..]) else s
  }

  /** `parseInt(s, 16)`: skip leading white space, take an optional sign and
      an optional `0x`/`0X` prefix, then read the longest run of hex digits.
      No digit at all gives `NaN` (here `None`).  A negative zero is `Some(0)`. */
  function ParseIntHex(s: string): Option<int>
  {
    var t := TrimStart(s);
    var sign := if t != [] && t[0] == '-' then -1 else 1;
    var u := if t != [] && (t[0] == '+' || t[0] == '-') then t[1..] else t;
    var w := if |u| >= 2 && u[0] == '0' && (u[1] == 'x' || u[1] == 'X') then u[2..] else u;
    var n := HexPrefixLength(w);
    if n == 0 then None else Some(sign * DigitsValue(w[..n]))
  }

  /** The channel `parseInt(hex.slice(start, start + 2), 16) / 255`. */
  function ChannelAt(hex: string, start: nat): Channel
  {
    match ParseIntHex(Slice(hex, start, start + 2))
    case None => NaN
    case Some(n) => Scaled(n)
  }

  /** `hexToVec3(hex)`. */
  function HexToVec3(hex: string): Vec3
  {
    Vec3(ChannelAt(hex, 1), ChannelAt(hex, 3), ChannelAt(hex, 5))
  }

  // ---------------------------------------------------------------------
  // Colours as the colour picker writes them
  // ---------------------------------------------------------------------

  /** `#` followed by six hex digits. */
  predicate IsHexColor(s: string)
  {
    |s| == 7 && s[0] == '#' && forall k :: 1 <= k < 7 ==> IsHexDigit(s[k])
  }

  /** The byte written by the two digits at `s[k]`, `s[k + 1]`. */
  function PairValue(s: string, k: nat): (v: nat)
    requires k + 1 < |s| && IsHexDigit(s[k]) && IsHexDigit(s[k + 1])
    ensures v < 256
  {
    16 * DigitValue(s[k]) + DigitValue(s[k + 1])
  }

  /** The colour `#rrggbb` with lower-case digits, the form a colour input
      reports and the form of the colour literals in main.js. */
  function FormatHex(r: Byte, g: Byte, b: Byte): (s: string)
    ensures IsHexColor(s)
  {
    ['#', Digit(r / 16), Digit(r % 16), Digit(g / 16), Digit(g % 16), Digit(b / 16), Digit(b % 16)]
  }

  /** The channel as a real number: exact division, where JavaScript rounds
      the quotient to a double. */
  ghost function Value(c: Channel): real
    requires c.Scaled?
  {
    c.byte as real / 255.0
  }

  // ---------------------------------------------------------------------
  // Properties
  // ---------------------------------------------------------------------

  /** A run made of hex digits only is read to its end. */
  lemma {:induction false} HexPrefixOfDigits(z: string)
    requires AllHexDigits(z)
    ensures HexPrefixLength(z) == |z|
  {
    if z != [] {
      assert IsHexDigit(z[0]);
      HexPrefixOfDigits(z[1..]);
    }
  }

  /** Two hex digits parse as the byte they write, whatever the case of the
      letters; a `0x` prefix cannot arise since `x` is not a digit. */
  lemma ParsePair(a: char, b: char)
    requires IsHexDigit(a) && IsHexDigit(b)
    ensures ParseIntHex([a, b]) == Some(16 * DigitValue(a) + DigitValue(b))
  {
    var s := [a, b];
    assert !IsSpace(a);
    assert TrimStart(s) == s;
    HexPrefixOfDigits(s);
    assert s[..2] == s;
    assert s[..1] == [a];
    assert DigitsValue([a]) == DigitValue(a) by {
      assert [a][..0] == [];
    }
  }

  /** The channel read from two hex digits is the byte they write. */
  lemma ChannelOfPair(s: string, k: nat)
    requires k + 1 < |s| && IsHexDigit(s[k]) && IsHexDigit(s[k + 1])
    ensures ChannelAt(s, k) == Scaled(PairValue(s, k))
  {
    assert Slice(s, k, k + 2) == [s[k], s[k + 1]];
    ParsePair(s[k], s[k + 1]);
  }

  /** A byte divided by 255 lies in [0, 1]. */
  lemma ByteValueInUnit(c: Channel)
    requires c.Scaled? && 0 <= c.byte <= 255
    ensures 0.0 <= Value(c) <= 1.0
  {
  }

  /** A well-formed colour yields the three bytes its digit pairs write,
      each in 0..255, so each channel lies in [0, 1]. */
  lemma HexToVec3OfHexColor(s: string)
    requires IsHexColor(s)
    ensures HexToVec3(s) == Vec3(Scaled(PairValue(s, 1)), Scaled(PairValue(s, 3)), Scaled(PairValue(s, 5)))
    ensures var v := HexToVec3(s);
      && 0.0 <= Value(v.r) <= 1.0 && 0.0 <= Value(v.g) <= 1.0 && 0.0 <= Value(v.b) <= 1.0
  {
    ChannelOfPair(s, 1);
    ChannelOfPair(s, 3);
    ChannelOfPair(s, 5);
    var v := HexToVec3(s);
    ByteValueInUnit(v.r);
    ByteValueInUnit(v.g);
    ByteValueInUnit(v.b);
  }

  /** Reading back what the colour picker writes gives the bytes that were written. */
  lemma HexToVec3OfFormatHex(r: Byte, g: Byte, b: Byte)
    ensures HexToVec3(FormatHex(r, g, b)) == Vec3(Scaled(r), Scaled(g), Scaled(b))
  {
    FormatHexPairs(r, g, b);
    HexToVec3OfHexColor(FormatHex(r, g, b));
  }

  /** Each digit pair `FormatHex` writes reads back as its byte. */
  lemma FormatHexPairs(r: Byte, g: Byte, b: Byte)
    ensures var s := FormatHex(r, g, b);
      PairValue(s, 1) == r && PairValue(s, 3) == g && PairValue(s, 5) == b
  {
    var s := FormatHex(r, g, b);
    assert s[1] == Digit(r / 16) && s[2] == Digit(r % 16);
    assert s[3] == Digit(g / 16) && s[4] == Digit(g % 16);
    assert s[5] == Digit(b / 16) && s[6] == Digit(b % 16);
  }

  /** The value of at most two digits is below 256. */
  lemma SmallValue(z: string)
    requires AllHexDigits(z) && |z| <= 2
    ensures DigitsValue(z) < 256
    ensures |z| <= 1 ==> DigitsValue(z) < 16
  {
    assert Pow16(1) == 16;
    assert Pow16(2) == 256;
  }

  /** `parseInt` of a string of at most two characters is `NaN` or lies in
      -15..255: a sign or white space leaves room for one digit at most. */
  lemma ParseShortRange(s: string)
    requires |s| <= 2
    ensures ParseIntHex(s).Some? ==> -15 <= ParseIntHex(s).value <= 255
  {
    var t := TrimStart(s);
    var u := if t != [] && (t[0] == '+' || t[0] == '-') then t[1..] else t;
    var w := if |u| >= 2 && u[0] == '0' && (u[1] == 'x' || u[1] == 'X') then u[2..] else u;
    var n := HexPrefixLength(w);
    SmallValue(w[..n]);
    if t != [] && t[0] == '-' {
      assert |w[..n]| <= 1;
    }
  }

  /** Whatever the input, every channel is `NaN` or a number in [-15/255, 1]. */
  lemma HexToVec3Range(hex: string)
    ensures forall c :: c in {HexToVec3(hex).r, HexToVec3(hex).g, HexToVec3(hex).b} ==>
      c.NaN? || -15 <= c.byte <= 255
  {
    ParseShortRange(Slice(hex, 1, 3));
    ParseShortRange(Slice(hex, 3, 5));
    ParseShortRange(Slice(hex, 5, 7));
  }
}

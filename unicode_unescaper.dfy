/**
 * Apache Commons Text `UnicodeUnescaper`, specified for the escapes the
 * code-point mappers produce: a backslash, a `u` and four hexadecimal digits
 * become the one UTF-16 code unit those digits name; every other unit is
 * copied.
 */
module UnicodeUnescaper {
  import opened JavaLang

  const Backslash: CodeUnit := 0x5C
  const LowerU: CodeUnit := 0x75

  /** The `\u` that opens an escape. */
  const EscapePrefix: UString := [Backslash, LowerU]

  predicate IsHexDigit(c: CodeUnit)
  {
    0x30 <= c <= 0x39 || 0x41 <= c <= 0x46 || 0x61 <= c <= 0x66
  }

  function HexDigitValue(c: CodeUnit): (v: nat)
    requires IsHexDigit(c)
    ensures v < 16
  {
    if c <= 0x39 then (c - 0x30) as nat
    else if c <= 0x46 then (c - 0x41) as nat + 10
    else (c - 0x61) as nat + 10
  }

  /** A token of exactly four hexadecimal digits, the form the character-set files use. */
  predicate IsHex4(t: UString)
  {
    |t| == 4 && forall i | 0 <= i < 4 :: IsHexDigit(t[i])
  }

  /** Every token is four hexadecimal digits. */
  predicate AllHex4(tokens: seq<UString>)
  {
    forall i | 0 <= i < |tokens| :: IsHex4(tokens[i])
  }

  /** The number four hexadecimal digits name, most significant first. */
  function HexValue(t: UString): (v: nat)
    requires IsHex4(t)
    ensures v < 0x1_0000
  {
    4096 * HexDigitValue(t[0]) + 256 * HexDigitValue(t[1]) + 16 * HexDigitValue(t[2]) + HexDigitValue(t[3])
  }

  /** The upper-case hexadecimal digit of a value below 16. */
  function HexDigit(d: nat): (c: CodeUnit)
    requires d < 16
    ensures IsHexDigit(c) && HexDigitValue(c) == d
  {
    if d < 10 then (0x30 + d) as CodeUnit else (0x41 + d - 10) as CodeUnit
  }

  /** The four upper-case hexadecimal digits of a code unit, leading zeros kept. */
  function Hex4(u: CodeUnit): (t: UString)
  {
    var v := u as nat;
    var low12 := v % 4096;
    var low8 := low12 % 256;
    [HexDigit(v / 4096), HexDigit(low12 / 256), HexDigit(low8 / 16), HexDigit(low8 % 16)]
  }

  /** Reading back the four digits written for a code unit gives that unit. */
  lemma HexRoundTrip(u: CodeUnit)
    ensures IsHex4(Hex4(u)) && HexValue(Hex4(u)) == u as nat
  {
    var v := u as nat;
    var low12 := v % 4096;
    var low8 := low12 % 256;
    assert v == 4096 * (v / 4096) + low12;
    assert low12 == 256 * (low12 / 256) + low8;
    assert low8 == 16 * (low8 / 16) + low8 % 16;
  }

  /** `UnicodeUnescaper.translate` on input whose escapes are all well formed. */
  function Unescape(s: UString): (r: UString)
    ensures |r| <= |s|
    ensures Backslash !in s ==> r == s
    decreases |s|
  {
    if s == [] then []
    else if |s| >= 6 && s[..2] == EscapePrefix && IsHex4(s[2..6]) then
      [HexValue(s[2..6]) as CodeUnit] + Unescape(s[6..])
    else
      [s[0]] + Unescape(s[1..])
  }
}

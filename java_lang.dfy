/**
 * The parts of java.lang the modelled code relies on: strings as UTF-16
 * code units, the two exceptions it throws, Java's 32-bit `int` arithmetic
 * for hash codes, and `Character.isWhitespace`.
 */
module JavaLang {
  import opened Wrappers

  /** One UTF-16 code unit: the value of a Java `char`. */
  newtype CodeUnit = x: int | 0 <= x < 0x1_0000

  /** A Java `String`: a sequence of UTF-16 code units (what `charAt` indexes). */
  type UString = seq<CodeUnit>

  /** The exceptions the modelled code throws. */
  datatype Exception = IllegalArgument(message: UString) | NullPointer

  /** The result of a Java call that returns a value or throws. */
  type Fallible<T> = Result<T, Exception>

  /** The UTF-16 units of a string literal whose characters all lie in the Basic Multilingual Plane. */
  function Lit(s: string): (r: UString)
    ensures |r| == |s|
    ensures forall i | 0 <= i < |s| :: (s[i] as int) < 0x1_0000 ==> r[i] as int == s[i] as int
  {
    seq(|s|, i requires 0 <= i < |s| => ((s[i] as int) % 0x1_0000) as CodeUnit)
  }

  /** The pieces of a string built by `+` from five parts: the first, the second, and the last two together. */
  lemma ConcatFive(a: UString, b: UString, c: UString, d: UString, e: UString)
    ensures var r := a + b + c + d + e;
      && |r| == |a| + |b| + |c| + |d| + |e|
      && r[..|a|] == a
      && r[|a|..|a| + |b|] == b
      && r[|r| - |d| - |e|..] == d + e
  {
    var r := a + b + c + d + e;
    assert r == a + (b + (c + (d + e)));
  }

  /** An `IllegalArgumentException` whose message is the given literal. */
  function IllegalArgumentError<T>(message: string): Fallible<T>
  {
    Err(IllegalArgument(Lit(message)))
  }

  /** Java `int` arithmetic: the 32-bit two's-complement value congruent to `x`. */
  function Int32(x: int): (r: int)
    ensures -0x8000_0000 <= r < 0x8000_0000
    ensures (x - r) % 0x1_0000_0000 == 0
  {
    var m := x % 0x1_0000_0000;
    if m < 0x8000_0000 then m else m - 0x1_0000_0000
  }

  /** `String.hashCode`: h = 31 * h + c over the code units, in `int` arithmetic. */
  function StringHash(s: UString): (h: int)
    ensures -0x8000_0000 <= h < 0x8000_0000
  {
    if s == [] then 0 else Int32(31 * StringHash(s[..|s| - 1]) + s[|s| - 1] as int)
  }

  /**
   * `Character.isWhitespace(char)`: the space, line and paragraph separators
   * other than the no-break spaces U+00A0, U+2007 and U+202F, plus
   * U+0009..U+000D and U+001C..U+001F.
   */
  predicate IsWhitespace(c: CodeUnit)
  {
    || 0x09 <= c <= 0x0D
    || 0x1C <= c <= 0x20
    || c == 0x1680
    || 0x2000 <= c <= 0x2006
    || 0x2008 <= c <= 0x200A
    || c == 0x2028 || c == 0x2029 || c == 0x205F || c == 0x3000
  }
}

/**
 * `UTF8Codepoint`: an immutable value naming one printable character as a
 * field of hexadecimal code points ("0043 0300") and the char separating them.
 * Equality is textual: the field and the separator, not the printable form.
 */
module Codepoints {
  import opened Wrappers
  import opened JavaLang
  import StringUtils
  import opened UnicodeUnescaper
  import Mapper

  /** The separation char of the one-argument constructor, a blank. */
  const DEFAULT_SEPARATION_CHAR: CodeUnit := 0x20

  /** A `UTF8Codepoint`; both fields are set once, by the constructor. */
  datatype UTF8Codepoint = UTF8Codepoint(codePoints: UString, separationChar: CodeUnit)
  {
    /** The code-point tokens of the field. */
    function Tokens(): seq<UString>
    {
      StringUtils.Split(codePoints, separationChar)
    }

    /**
     * `utf8()`: the root mapper's output unescaped. For four-digit tokens that
     * is one code unit per token, holding the token's value, in token order.
     */
    function Utf8(): (r: UString)
      ensures AllHex4(Tokens()) ==>
        && |r| == |Tokens()|
        && forall i | 0 <= i < |r| :: r[i] as nat == HexValue(Tokens()[i])
    {
      Mapper.UnescapeEscaped(Tokens());
      Unescape(Mapper.Escaped(Tokens()))
    }

    /** `hashCode()`: 31 * (31 + codePoints.hashCode()) + separationChar, in `int` arithmetic. */
    function HashCode(): (r: int)
      ensures -0x8000_0000 <= r < 0x8000_0000
    {
      Int32(31 * Int32(31 * 1 + StringHash(codePoints)) + separationChar as int)
    }

    /**
     * `equals(Object)`: false for null and for objects of another class,
     * otherwise true iff both the field and the separator are equal.
     */
    function Equals(obj: Option<AnyObject>): (r: bool)
      ensures r <==> obj == Some(CodepointObject(this))
    {
      match obj
      case None => false
      case Some(OtherObject) => false
      case Some(CodepointObject(other)) =>
        if codePoints != other.codePoints then false
        else if separationChar != other.separationChar then false
        else true
    }

    /** `toString()`. */
    function ToString(): (r: UString)
      ensures |r| == 20 + |Utf8()| + 13 + |codePoints| + 1
      ensures r[..20] == Lit("UTF8Codepoint [utf8=")
      ensures r[20..20 + |Utf8()|] == Utf8()
      ensures r[|r| - |codePoints| - 1..] == codePoints + Lit("]")
    {
      Lit("UTF8Codepoint [utf8=") + Utf8() + Lit(", codePoints=") + codePoints + Lit("]")
    }
  }

  /** The argument of `equals(Object)`: a `UTF8Codepoint` or an object of some other class. */
  datatype AnyObject = CodepointObject(codepoint: UTF8Codepoint) | OtherObject

  /** `new UTF8Codepoint(codePoints, separationChar)`. */
  function NewWithSeparator(codePoints: Option<UString>, separationChar: CodeUnit): (r: Fallible<UTF8Codepoint>)
    ensures codePoints.None? <==> r.Err?
    ensures r.Err? ==> r == IllegalArgumentError("codePoints must not be null")
    ensures r.Ok? ==> r.value.codePoints == codePoints.value && r.value.separationChar == separationChar
  {
    if codePoints.None? then IllegalArgumentError("codePoints must not be null")
    else Ok(UTF8Codepoint(codePoints.value, separationChar))
  }

  /** `new UTF8Codepoint(codePoints)`: the blank as separator. */
  function New(codePoints: Option<UString>): (r: Fallible<UTF8Codepoint>)
    ensures r.Ok? ==> r.value.separationChar == DEFAULT_SEPARATION_CHAR
    ensures r == NewWithSeparator(codePoints, DEFAULT_SEPARATION_CHAR)
  {
    NewWithSeparator(codePoints, DEFAULT_SEPARATION_CHAR)
  }

  /** `equals` is an equivalence relation on code points. */
  lemma EqualsIsEquivalence(a: UTF8Codepoint, b: UTF8Codepoint, c: UTF8Codepoint)
    ensures a.Equals(Some(CodepointObject(a)))
    ensures a.Equals(Some(CodepointObject(b))) <==> b.Equals(Some(CodepointObject(a)))
    ensures a.Equals(Some(CodepointObject(b))) && b.Equals(Some(CodepointObject(c))) ==> a.Equals(Some(CodepointObject(c)))
  {
  }

  /** Equal code points have equal hash codes. */
  lemma HashCodeAgreesWithEquals(a: UTF8Codepoint, b: UTF8Codepoint)
    requires a.Equals(Some(CodepointObject(b)))
    ensures a.HashCode() == b.HashCode()
  {
  }

  /** A field of one four-digit token prints as the one code unit it names. */
  lemma OneTokenPrints(t: UString, sep: CodeUnit)
    requires IsHex4(t) && sep !in t
    ensures UTF8Codepoint(t, sep).Utf8() == [HexValue(t) as CodeUnit]
  {
    StringUtils.SplitOne(t, sep);
  }

  /** A field of two four-digit tokens prints as the two code units they name. */
  lemma TwoTokensPrint(t1: UString, t2: UString, sep: CodeUnit)
    requires IsHex4(t1) && IsHex4(t2) && sep !in t1 && sep !in t2
    ensures UTF8Codepoint(t1 + [sep] + t2, sep).Utf8() == [HexValue(t1) as CodeUnit, HexValue(t2) as CodeUnit]
  {
    StringUtils.SplitTwo(t1, t2, sep);
    assert UTF8Codepoint(t1 + [sep] + t2, sep).Tokens() == [t1, t2];
  }

  /** "0043 0300", split at `sep`, prints as C followed by the combining grave accent. */
  lemma DecomposedCPrints(field: UString, sep: CodeUnit)
    requires field == [0x30, 0x30, 0x34, 0x33, sep, 0x30, 0x33, 0x30, 0x30]
    requires sep != 0x30 && sep != 0x33 && sep != 0x34
    ensures UTF8Codepoint(field, sep).Utf8() == [0x43, 0x300]
  {
    var t1: UString := [0x30, 0x30, 0x34, 0x33];
    var t2: UString := [0x30, 0x33, 0x30, 0x30];
    assert field == t1 + [sep] + t2;
    assert HexValue(t1) == 0x43 && HexValue(t2) == 0x300;
    TwoTokensPrint(t1, t2, sep);
  }

  /**
   * "0043 0300" with a blank and "0043,0300" with a comma print as the same
   * C with grave accent, yet are not equal: equality is on the text.
   */
  lemma EqualityIsTextual(blank: UString, comma: UString)
    requires blank == Lit("0043 0300") && comma == Lit("0043,0300")
    ensures UTF8Codepoint(blank, 0x20).Utf8() == UTF8Codepoint(comma, 0x2C).Utf8() == [0x43, 0x300]
    ensures !UTF8Codepoint(blank, 0x20).Equals(Some(CodepointObject(UTF8Codepoint(comma, 0x2C))))
  {
    DecomposedCPrints(blank, 0x20);
    DecomposedCPrints(comma, 0x2C);
  }

  /** "0043 0300" prints as C with combining grave accent inside its `toString`. */
  lemma ToStringOfDecomposedC(field: UString)
    requires field == Lit("0043 0300")
    ensures UTF8Codepoint(field, DEFAULT_SEPARATION_CHAR).ToString()
         == Lit("UTF8Codepoint [utf8=") + [0x43, 0x300] + Lit(", codePoints=") + field + Lit("]")
  {
    DecomposedCPrints(field, DEFAULT_SEPARATION_CHAR);
  }

  /** "0043" prints as the single letter C. */
  lemma SingleTokenPrintsOneUnit(field: UString)
    requires field == Lit("0043")
    ensures UTF8Codepoint(field, DEFAULT_SEPARATION_CHAR).Utf8() == [0x43]
  {
    assert field == [0x30, 0x30, 0x34, 0x33];
    assert HexValue(field) == 0x43;
    OneTokenPrints(field, DEFAULT_SEPARATION_CHAR);
  }
}

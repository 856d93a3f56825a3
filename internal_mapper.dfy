/**
 * `CodePointsToUnicodeMapper` of the `internal` package: the same `\u`
 * rewriting as the root mapper, but taking a `UTF8Codepoint` and splitting at
 * that code point's own separation char.
 */
module InternalMapper {
  import opened Wrappers
  import opened JavaLang
  import StringUtils
  import opened UnicodeUnescaper
  import Mapper
  import opened Codepoints

  class CodePointsToUnicodeMapper {

    constructor ()
    {
    }

    /** `apply`: rejects null, otherwise appends `\u` and each token of the code point's field to a buffer. */
    method Apply(cp: Option<UTF8Codepoint>) returns (r: Fallible<UString>)
      ensures cp.None? ==> r == IllegalArgumentError("utf8CodePoint must not be null")
      ensures cp.Some? ==> r == Ok(Mapper.Escaped(StringUtils.Split(cp.value.codePoints, cp.value.separationChar)))
    {
      if cp.None? {
        return IllegalArgumentError("utf8CodePoint must not be null");
      }
      var tokens := StringUtils.Split(cp.value.codePoints, cp.value.separationChar);
      var sb: UString := [];
      for i := 0 to |tokens|
        invariant sb == Mapper.Escaped(tokens[..i])
      {
        Mapper.EscapedAppend(tokens[..i], tokens[i]);
        assert tokens[..i + 1] == tokens[..i] + [tokens[i]];
        sb := sb + EscapePrefix;
        sb := sb + tokens[i];
      }
      assert tokens[..|tokens|] == tokens;
      r := Ok(sb);
    }
  }

  /**
   * The internal mapper gives what the root mapper gives when the root mapper
   * is built with the code point's separation char and applied to its field.
   */
  method AgreesWithRootMapper(cp: UTF8Codepoint) returns (viaInternal: Fallible<UString>, viaRoot: UString)
    ensures viaInternal == Ok(viaRoot)
  {
    var internal := new CodePointsToUnicodeMapper();
    viaInternal := internal.Apply(Some(cp));
    var root := new Mapper.CodePointsToUnicodeMapper.WithSeparationChar(cp.separationChar);
    viaRoot := root.Apply(cp.codePoints);
  }

  /** A single token "0056" maps to `\u0056`. */
  lemma MapsSingleToken(field: UString)
    requires field == Lit("0056")
    ensures Mapper.Escaped(StringUtils.Split(field, DEFAULT_SEPARATION_CHAR)) == Lit("\\u0056")
  {
    assert field == [0x30, 0x30, 0x35, 0x36];
    StringUtils.SplitOne(field, DEFAULT_SEPARATION_CHAR);
    assert [field][1..] == [];
    assert Lit("\\u0056") == EscapePrefix + field;
  }

  /** "0047 0300" maps to `\u0047\u0300`. */
  lemma MapsTwoTokens(field: UString)
    requires field == Lit("0047 0300")
    ensures Mapper.Escaped(StringUtils.Split(field, DEFAULT_SEPARATION_CHAR)) == Lit("\\u0047\\u0300")
  {
    var t1: UString := [0x30, 0x30, 0x34, 0x37];
    var t2: UString := [0x30, 0x33, 0x30, 0x30];
    assert field == t1 + [DEFAULT_SEPARATION_CHAR] + t2;
    StringUtils.SplitTwo(t1, t2, DEFAULT_SEPARATION_CHAR);
    Mapper.EscapedTwo(t1, t2);
    assert Lit("\\u0047\\u0300") == EscapePrefix + t1 + EscapePrefix + t2;
  }
}

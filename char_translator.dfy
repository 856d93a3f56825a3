/**
 * `CodePointsToUnicodeCharTranslator`: resolves a code-point provider to the
 * printable string it names, by the root mapper followed by `UnicodeUnescaper`.
 */
module CharTranslator {
  import opened Wrappers
  import opened JavaLang
  import StringUtils
  import opened UnicodeUnescaper
  import Mapper
  import Codepoints

  /** A `UnicodeCodePointsProvider`: a code-point field and the char that separates its tokens. */
  datatype CodePointsProvider = CodePointsProvider(codePoints: UString, separationChar: CodeUnit)

  /**
   * `apply`: a null provider is rejected; otherwise the result is the
   * unescaped mapper output, one code unit per four-digit token, in token order.
   */
  function Apply(provider: Option<CodePointsProvider>): (r: Fallible<UString>)
    ensures provider.None? ==> r == IllegalArgumentError("codePointsProvider must not be null")
    ensures provider.Some? ==> r.Ok?
    ensures provider.Some? && AllHex4(StringUtils.Split(provider.value.codePoints, provider.value.separationChar)) ==>
      var tokens := StringUtils.Split(provider.value.codePoints, provider.value.separationChar);
      && |r.value| == |tokens|
      && forall i | 0 <= i < |tokens| :: r.value[i] as nat == HexValue(tokens[i])
  {
    if provider.None? then IllegalArgumentError("codePointsProvider must not be null")
    else
      var p := provider.value;
      var tokens := StringUtils.Split(p.codePoints, p.separationChar);
      Mapper.UnescapeEscaped(tokens);
      Ok(Unescape(Mapper.Escaped(tokens)))
  }

  /** The translator and `UTF8Codepoint.utf8()` resolve the same field and separator to the same string. */
  lemma AgreesWithUtf8(codePoints: UString, separationChar: CodeUnit)
    ensures Apply(Some(CodePointsProvider(codePoints, separationChar)))
         == Ok(Codepoints.UTF8Codepoint(codePoints, separationChar).Utf8())
  {
  }

  /** A field of two four-digit tokens translates to the two code units they name. */
  lemma TwoTokensTranslate(t1: UString, t2: UString, sep: CodeUnit)
    requires IsHex4(t1) && IsHex4(t2) && sep !in t1 && sep !in t2
    ensures Apply(Some(CodePointsProvider(t1 + [sep] + t2, sep))) == Ok([HexValue(t1) as CodeUnit, HexValue(t2) as CodeUnit])
  {
    StringUtils.SplitTwo(t1, t2, sep);
    assert AllHex4([t1, t2]);
    var r := Apply(Some(CodePointsProvider(t1 + [sep] + t2, sep)));
    assert r.Ok? && |r.value| == 2;
    assert r.value[0] as nat == HexValue(t1) && r.value[1] as nat == HexValue(t2);
    assert r.value == [HexValue(t1) as CodeUnit, HexValue(t2) as CodeUnit];
  }

  /**
   * "0054 0308" with the default separator gives T followed by the combining
   * diaeresis: two code units, not composed into one.
   */
  lemma DecomposedTStaysTwoUnits(field: UString)
    requires field == Lit("0054 0308")
    ensures Apply(Some(CodePointsProvider(field, Mapper.DEFAULT_SEPARATION_CHAR))) == Ok([0x0054, 0x0308])
  {
    var t1: UString := [0x30, 0x30, 0x35, 0x34];
    var t2: UString := [0x30, 0x33, 0x30, 0x38];
    assert field == t1 + [Mapper.DEFAULT_SEPARATION_CHAR] + t2;
    assert HexValue(t1) == 0x54 && HexValue(t2) == 0x308;
    TwoTokensTranslate(t1, t2, Mapper.DEFAULT_SEPARATION_CHAR);
  }
}

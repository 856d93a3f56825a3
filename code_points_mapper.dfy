/**
 * `CodePointsToUnicodeMapper` of the root package: splits a code-point field
 * such as "0054 0308" at its separation char and writes every token behind a
 * `\u`, giving "\u0054\u0308", the input `UnicodeUnescaper` expects.
 */
module Mapper {
  import opened JavaLang
  import StringUtils
  import opened UnicodeUnescaper

  /** `UnicodeCodePointsProvider.DEFAULT_SEPARATION_CHAR`, a blank. */
  const DEFAULT_SEPARATION_CHAR: CodeUnit := 0x20

  /** Every token behind a `\u`, in order, and nothing else. */
  function Escaped(tokens: seq<UString>): UString
  {
    if tokens == [] then [] else EscapePrefix + tokens[0] + Escaped(tokens[1..])
  }

  lemma {:induction false} EscapedAppend(tokens: seq<UString>, t: UString)
    ensures Escaped(tokens + [t]) == Escaped(tokens) + EscapePrefix + t
    decreases |tokens|
  {
    if tokens == [] {
      assert [] + [t] == [t];
    } else {
      assert (tokens + [t])[1..] == tokens[1..] + [t];
      EscapedAppend(tokens[1..], t);
    }
  }

  /**
   * The mapper's output for `s` holds every non-separator unit of `s` and two
   * prefix units per token: separators produce no empty `\u` entry.
   */
  lemma {:induction false} MapperOutputLength(s: UString, sep: CodeUnit)
    ensures |Escaped(StringUtils.Split(s, sep))|
         == |StringUtils.Remove(s, sep)| + 2 * |StringUtils.Split(s, sep)|
  {
    var tokens := StringUtils.Split(s, sep);
    StringUtils.SplitKeepsAllButSeparators(s, sep);
    EscapedConcatLength(tokens);
  }

  lemma {:induction false} EscapedConcatLength(tokens: seq<UString>)
    ensures |Escaped(tokens)| == |StringUtils.Concat(tokens)| + 2 * |tokens|
    decreases |tokens|
  {
    if tokens != [] {
      EscapedConcatLength(tokens[1..]);
    }
  }

  /** Unescaping the mapper's output of four-digit tokens decodes each token to one code unit. */
  lemma {:induction false} UnescapeEscaped(tokens: seq<UString>)
    ensures AllHex4(tokens) ==>
      && |Unescape(Escaped(tokens))| == |tokens|
      && forall i | 0 <= i < |tokens| :: Unescape(Escaped(tokens))[i] as nat == HexValue(tokens[i])
    decreases |tokens|
  {
    if tokens != [] && AllHex4(tokens) {
      var s := Escaped(tokens);
      var rest := Escaped(tokens[1..]);
      assert s == EscapePrefix + tokens[0] + rest;
      assert s[..2] == EscapePrefix && s[2..6] == tokens[0] && s[6..] == rest;
      assert AllHex4(tokens[1..]) by {
        forall i | 0 <= i < |tokens[1..]| ensures IsHex4(tokens[1..][i]) {
          assert tokens[1..][i] == tokens[i + 1];
        }
      }
      UnescapeEscaped(tokens[1..]);
      assert Unescape(s) == [HexValue(tokens[0]) as CodeUnit] + Unescape(rest);
    }
  }

  /** Two tokens map to a `\u` before each. */
  lemma EscapedTwo(t1: UString, t2: UString)
    ensures Escaped([t1, t2]) == EscapePrefix + t1 + EscapePrefix + t2
  {
    assert [t1, t2][1..] == [t2] && [t2][1..] == [];
    assert Escaped([t2]) == EscapePrefix + t2;
  }

  /** "0054 0308" split at the default blank maps to `\u0054\u0308`. */
  lemma MapsBlankSeparatedField(field: UString)
    requires field == Lit("0054 0308")
    ensures Escaped(StringUtils.Split(field, DEFAULT_SEPARATION_CHAR)) == Lit("\\u0054\\u0308")
  {
    var t1: UString := [0x30, 0x30, 0x35, 0x34];
    var t2: UString := [0x30, 0x33, 0x30, 0x38];
    assert field == t1 + [DEFAULT_SEPARATION_CHAR] + t2;
    StringUtils.SplitTwo(t1, t2, DEFAULT_SEPARATION_CHAR);
    EscapedTwo(t1, t2);
    assert Lit("\\u0054\\u0308") == EscapePrefix + t1 + EscapePrefix + t2;
  }

  /** "0054;0308" split at ';' maps to the same `\u0054\u0308`. */
  lemma MapsSemicolonSeparatedField(field: UString)
    requires field == Lit("0054;0308")
    ensures Escaped(StringUtils.Split(field, 0x3B)) == Lit("\\u0054\\u0308")
  {
    var t1: UString := [0x30, 0x30, 0x35, 0x34];
    var t2: UString := [0x30, 0x33, 0x30, 0x38];
    assert field == t1 + [0x3B] + t2;
    StringUtils.SplitTwo(t1, t2, 0x3B);
    EscapedTwo(t1, t2);
    assert Lit("\\u0054\\u0308") == EscapePrefix + t1 + EscapePrefix + t2;
  }

  class CodePointsToUnicodeMapper {
    const separationChar: CodeUnit

    /** The default mapper splits at a blank. */
    constructor ()
      ensures separationChar == DEFAULT_SEPARATION_CHAR
    {
      separationChar := DEFAULT_SEPARATION_CHAR;
    }

    constructor WithSeparationChar(separationChar: CodeUnit)
      ensures this.separationChar == separationChar
    {
      this.separationChar := separationChar;
    }

    /** `apply`: appends `\u` and each token of the split input to a buffer. */
    method Apply(s: UString) returns (r: UString)
      ensures r == Escaped(StringUtils.Split(s, separationChar))
    {
      var tokens := StringUtils.Split(s, separationChar);
      var sb: UString := [];
      for i := 0 to |tokens|
        invariant sb == Escaped(tokens[..i])
      {
        EscapedAppend(tokens[..i], tokens[i]);
        assert tokens[..i + 1] == tokens[..i] + [tokens[i]];
        sb := sb + EscapePrefix;
        sb := sb + tokens[i];
      }
      assert tokens[..|tokens|] == tokens;
      r := sb;
    }
  }
}

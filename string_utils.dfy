/**
 * The two Apache Commons Lang `StringUtils` operations the code calls,
 * specified here rather than taken from the library: `split(String, char)`,
 * which drops empty tokens, and `isBlank`.
 */
module StringUtils {
  import opened JavaLang

  /** `isBlank` of a non-null string: empty, or whitespace only. */
  predicate IsBlank(s: UString)
  {
    forall i | 0 <= i < |s| :: IsWhitespace(s[i])
  }

  /** The index of the first `sep` in `s`, or `|s|` when there is none. */
  function TokenEnd(s: UString, sep: CodeUnit): (k: nat)
    ensures k <= |s|
    ensures forall i | 0 <= i < k :: s[i] != sep
    ensures k < |s| ==> s[k] == sep
  {
    if s == [] || s[0] == sep then 0 else 1 + TokenEnd(s[1..], sep)
  }

  /**
   * `StringUtils.split(s, sep)`: the maximal runs of non-separator units, in
   * order. Leading, trailing and repeated separators yield no empty token.
   */
  function Split(s: UString, sep: CodeUnit): (tokens: seq<UString>)
    ensures forall i | 0 <= i < |tokens| :: tokens[i] != [] && sep !in tokens[i]
    decreases |s|
  {
    if s == [] then []
    else if s[0] == sep then Split(s[1..], sep)
    else
      var k := TokenEnd(s, sep);
      assert sep !in s[..k];
      [s[..k]] + Split(s[k..], sep)
  }

  /** The units of `s` other than `sep`, in order. */
  function Remove(s: UString, sep: CodeUnit): UString
  {
    if s == [] then [] else (if s[0] == sep then [] else [s[0]]) + Remove(s[1..], sep)
  }

  /** The tokens written one after another. */
  function Concat(tokens: seq<UString>): UString
  {
    if tokens == [] then [] else tokens[0] + Concat(tokens[1..])
  }

  /** The tokens written with one `sep` between neighbours. */
  function Join(tokens: seq<UString>, sep: CodeUnit): UString
  {
    if tokens == [] then []
    else if |tokens| == 1 then tokens[0]
    else tokens[0] + [sep] + Join(tokens[1..], sep)
  }

  /** Tokens that `Split` can return: non-empty and free of the separator. */
  predicate AreTokens(tokens: seq<UString>, sep: CodeUnit)
  {
    forall i | 0 <= i < |tokens| :: tokens[i] != [] && sep !in tokens[i]
  }

  lemma {:induction false} RemoveAppend(a: UString, b: UString, sep: CodeUnit)
    ensures Remove(a + b, sep) == Remove(a, sep) + Remove(b, sep)
    decreases |a|
  {
    if a == [] {
      assert a + b == b;
    } else {
      assert (a + b)[1..] == a[1..] + b;
      RemoveAppend(a[1..], b, sep);
    }
  }

  lemma {:induction false} RemoveFree(s: UString, sep: CodeUnit)
    requires sep !in s
    ensures Remove(s, sep) == s
    decreases |s|
  {
    if s != [] {
      RemoveFree(s[1..], sep);
    }
  }

  /** Splitting loses exactly the separators: the tokens hold every other unit, in order. */
  lemma {:induction false} SplitKeepsAllButSeparators(s: UString, sep: CodeUnit)
    ensures Concat(Split(s, sep)) == Remove(s, sep)
    decreases |s|
  {
    if s == [] {
    } else if s[0] == sep {
      SplitKeepsAllButSeparators(s[1..], sep);
    } else {
      var k := TokenEnd(s, sep);
      var tokens := Split(s, sep);
      assert tokens == [s[..k]] + Split(s[k..], sep);
      assert tokens[1..] == Split(s[k..], sep);
      SplitKeepsAllButSeparators(s[k..], sep);
      assert s == s[..k] + s[k..];
      RemoveAppend(s[..k], s[k..], sep);
      RemoveFree(s[..k], sep);
    }
  }

  lemma {:induction false} TokenEndOfToken(t: UString, rest: UString, sep: CodeUnit)
    requires sep !in t
    requires rest == [] || rest[0] == sep
    ensures TokenEnd(t + rest, sep) == |t|
    decreases |t|
  {
    if t != [] {
      assert (t + rest)[1..] == t[1..] + rest;
      TokenEndOfToken(t[1..], rest, sep);
    }
  }

  /** `Split` inverts `Join`: tokens joined with the separator split back into themselves. */
  lemma {:induction false} SplitJoin(tokens: seq<UString>, sep: CodeUnit)
    requires AreTokens(tokens, sep)
    ensures Split(Join(tokens, sep), sep) == tokens
    decreases |tokens|
  {
    if tokens == [] {
    } else if |tokens| == 1 {
      var t := tokens[0];
      assert t + [] == t;
      TokenEndOfToken(t, [], sep);
      assert t[..|t|] == t && t[|t|..] == [];
    } else {
      var t := tokens[0];
      var rest := [sep] + Join(tokens[1..], sep);
      var s := Join(tokens, sep);
      assert s == t + rest;
      TokenEndOfToken(t, rest, sep);
      assert s[..|t|] == t && s[|t|..] == rest;
      assert Split(rest, sep) == Split(Join(tokens[1..], sep), sep) by {
        assert rest[1..] == Join(tokens[1..], sep);
      }
      SplitJoin(tokens[1..], sep);
      assert tokens == [t] + tokens[1..];
    }
  }

  /** A trailing separator changes nothing. */
  lemma {:induction false} SplitTrailingSeparator(s: UString, sep: CodeUnit)
    ensures Split(s + [sep], sep) == Split(s, sep)
    decreases |s|
  {
    if s == [] {
      assert ([] + [sep])[1..] == [];
    } else if s[0] == sep {
      assert (s + [sep])[1..] == s[1..] + [sep];
      SplitTrailingSeparator(s[1..], sep);
    } else {
      var k := TokenEnd(s, sep);
      var t := s + [sep];
      assert s == s[..k] + s[k..];
      assert t == s[..k] + (s[k..] + [sep]);
      TokenEndOfToken(s[..k], s[k..] + [sep], sep);
      assert t[..k] == s[..k] && t[k..] == s[k..] + [sep];
      SplitTrailingSeparator(s[k..], sep);
    }
  }

  /** A field of one token splits into that token. */
  lemma SplitOne(t: UString, sep: CodeUnit)
    requires t != [] && sep !in t
    ensures Split(t, sep) == [t]
  {
    SplitJoin([t], sep);
  }

  /** A field of two tokens with one separator between them splits into those two tokens. */
  lemma SplitTwo(t1: UString, t2: UString, sep: CodeUnit)
    requires t1 != [] && t2 != [] && sep !in t1 && sep !in t2
    ensures Split(t1 + [sep] + t2, sep) == [t1, t2]
  {
    assert [t1, t2][1..] == [t2];
    assert Join([t1, t2], sep) == t1 + [sep] + t2;
    SplitJoin([t1, t2], sep);
  }
}

/**
 * `TransliterableUTF8Character` of the root package: an original code point
 * and the code point it is transliterated to.
 */
module TransliterableCharacters {
  import opened Wrappers
  import opened JavaLang
  import Codepoints
  import opened JavaUtil

  datatype TransliterableUTF8Character = TransliterableUTF8Character(
    originalCodepoint: Codepoints.UTF8Codepoint,
    transliteradedCodepoint: Codepoints.UTF8Codepoint)
  {
    /** `asUtf8()`: the original's printable form. */
    function AsUtf8(): UString
    {
      originalCodepoint.Utf8()
    }

    /** `transliterated()`: the transliteration's printable form. */
    function Transliterated(): UString
    {
      transliteradedCodepoint.Utf8()
    }
  }

  /** The constructor: the original is checked before the transliteration. */
  function New(originalCodepoint: Option<Codepoints.UTF8Codepoint>, transliteradedCodepoint: Option<Codepoints.UTF8Codepoint>)
    : (r: Fallible<TransliterableUTF8Character>)
    ensures originalCodepoint.None? ==> r == IllegalArgumentError("originalCodepoint must not be null")
    ensures originalCodepoint.Some? && transliteradedCodepoint.None? ==>
      r == IllegalArgumentError("transliteradedCodepoint must not be null")
    ensures r.Ok? <==> originalCodepoint.Some? && transliteradedCodepoint.Some?
    ensures r.Ok? ==>
      && r.value.originalCodepoint == originalCodepoint.value
      && r.value.transliteradedCodepoint == transliteradedCodepoint.value
  {
    if originalCodepoint.None? then IllegalArgumentError("originalCodepoint must not be null")
    else if transliteradedCodepoint.None? then IllegalArgumentError("transliteradedCodepoint must not be null")
    else Ok(TransliterableUTF8Character(originalCodepoint.value, transliteradedCodepoint.value))
  }

  /** The (printable original, printable transliteration) pair of every item, in list order. */
  function Entries(items: seq<TransliterableUTF8Character>): seq<(UString, UString)>
  {
    seq(|items|, i requires 0 <= i < |items| => (items[i].AsUtf8(), items[i].Transliterated()))
  }

  /**
   * Looking a printable character up in the map built from `items` finds a
   * value iff some item prints as it, and the value is the transliteration of
   * such an item.
   */
  lemma TransliterationLookup(items: seq<TransliterableUTF8Character>, givenPrintableCharacter: UString)
    ensures ContainsKey(PutAll(Entries(items)), Some(givenPrintableCharacter)) <==>
      exists i | 0 <= i < |items| :: items[i].AsUtf8() == givenPrintableCharacter
    ensures Get(PutAll(Entries(items)), Some(givenPrintableCharacter)).Some? <==>
      ContainsKey(PutAll(Entries(items)), Some(givenPrintableCharacter))
    ensures Get(PutAll(Entries(items)), Some(givenPrintableCharacter)).Some? ==>
      exists i | 0 <= i < |items| :: items[i].AsUtf8() == givenPrintableCharacter
        && items[i].Transliterated() == Get(PutAll(Entries(items)), Some(givenPrintableCharacter)).value
  {
    var entries := Entries(items);
    var found := Get(PutAll(entries), Some(givenPrintableCharacter));
    GetAfterPutAll(entries, givenPrintableCharacter);
    PutAllKeys(entries);
    if exists i | 0 <= i < |items| :: items[i].AsUtf8() == givenPrintableCharacter {
      var i :| 0 <= i < |items| && items[i].AsUtf8() == givenPrintableCharacter;
      assert entries[i].0 == givenPrintableCharacter;
    }
    if found.Some? {
      var i :| 0 <= i < |entries| && entries[i] == (givenPrintableCharacter, found.value);
      assert items[i].AsUtf8() == givenPrintableCharacter;
    }
  }

  /** The value found is the transliteration of the last item that prints as the looked-up character. */
  lemma TransliterationLookupLastWins(items: seq<TransliterableUTF8Character>, i: nat)
    requires i < |items|
    requires forall j | i < j < |items| :: items[j].AsUtf8() != items[i].AsUtf8()
    ensures Get(PutAll(Entries(items)), Some(items[i].AsUtf8())) == Some(items[i].Transliterated())
  {
    var entries := Entries(items);
    assert forall j | i < j < |entries| :: entries[j].0 != entries[i].0;
    PutAllLastWins(entries, i);
  }
}

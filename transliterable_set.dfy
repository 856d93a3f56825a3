/**
 * `TransliterableUTF8CharacterSet` of the root package: a named list of
 * transliterable characters and the map from each original's printable form
 * to its transliteration's printable form.
 */
module TransliterableSets {
  import opened Wrappers
  import opened JavaLang
  import opened JavaUtil
  import opened SetNames
  import opened Codepoints
  import opened TransliterableCharacters

  /**
   * The stream search of `isValid(UTF8Codepoint)`: the index of the first
   * item whose original code point equals `cp`.
   */
  function FindOriginal(items: seq<TransliterableUTF8Character>, cp: UTF8Codepoint): (r: Option<nat>)
    ensures r.Some? ==> r.value < |items| && cp.Equals(Some(CodepointObject(items[r.value].originalCodepoint)))
    ensures r.Some? ==> forall j | 0 <= j < r.value :: items[j].originalCodepoint != cp
    ensures r.None? ==> forall j | 0 <= j < |items| :: items[j].originalCodepoint != cp
    decreases |items|
  {
    if items == [] then None
    else if cp.Equals(Some(CodepointObject(items[0].originalCodepoint))) then Some(0)
    else
      match FindOriginal(items[1..], cp)
      case None => None
      case Some(k) => Some(k + 1)
  }

  class TransliterableUTF8CharacterSet {
    const name: SetName
    var items: seq<TransliterableUTF8Character>
    var transliterations: StringMap

    /** A set without items and without transliterations. */
    constructor (name: SetName)
      ensures this.name == name && items == [] && transliterations == map[]
    {
      this.name := name;
      items := [];
      transliterations := map[];
    }

    /**
     * `withItems`: a new set named like `startingSet`, holding `items`, whose
     * map is built by putting every item's pair in list order.
     */
    static method WithItems(startingSet: TransliterableUTF8CharacterSet, items: seq<TransliterableUTF8Character>)
      returns (result: TransliterableUTF8CharacterSet)
      ensures fresh(result)
      ensures result.name == startingSet.name && result.items == items
      ensures result.transliterations == PutAll(Entries(items))
    {
      result := new TransliterableUTF8CharacterSet(startingSet.name);
      result.items := items;
      var transliterationMap: StringMap := map[];
      for i := 0 to |items|
        invariant transliterationMap == PutAll(Entries(items[..i]))
      {
        assert Entries(items[..i + 1])[..i] == Entries(items[..i]);
        var key := items[i].AsUtf8();
        var value := items[i].Transliterated();
        transliterationMap := transliterationMap[key := Some(value)];
      }
      assert items[..|items|] == items;
      result.transliterations := transliterationMap;
    }

    /** `withItemsAndTransliterations`: items and map are taken as given, unchecked against each other. */
    static method WithItemsAndTransliterations(startingSet: TransliterableUTF8CharacterSet,
                                               items: seq<TransliterableUTF8Character>, transliterations: StringMap)
      returns (result: TransliterableUTF8CharacterSet)
      ensures fresh(result)
      ensures result.name == startingSet.name && result.items == items && result.transliterations == transliterations
    {
      result := new TransliterableUTF8CharacterSet(startingSet.name);
      result.items := items;
      result.transliterations := transliterations;
    }

    /** `printableTransliteratedCharacter`: the map's value, null when there is none. */
    function PrintableTransliteratedCharacter(givenPrintableCharacter: Option<UString>): (r: Option<UString>)
      reads this
      ensures r.Some? ==> IsValid(givenPrintableCharacter) && transliterations[givenPrintableCharacter.value] == r
      ensures IsValid(givenPrintableCharacter) ==> r == transliterations[givenPrintableCharacter.value]
    {
      Get(transliterations, givenPrintableCharacter)
    }

    function Name(): UString
    {
      name.name
    }

    /** `isValid(String)`: the printable character is a key of the map. */
    predicate IsValid(givenPrintableCharacter: Option<UString>)
      reads this
      ensures IsValid(givenPrintableCharacter) <==>
        givenPrintableCharacter.Some? && givenPrintableCharacter.value in transliterations.Keys
    {
      ContainsKey(transliterations, givenPrintableCharacter)
    }

    /** `isValid(UTF8Codepoint)`: false for null, else true iff some item's original equals it. */
    predicate IsValidCodepoint(codePoint: Option<UTF8Codepoint>)
      reads this
      ensures IsValidCodepoint(codePoint) <==>
        codePoint.Some? && exists i | 0 <= i < |items| :: items[i].originalCodepoint == codePoint.value
    {
      codePoint.Some? && FindOriginal(items, codePoint.value).Some?
    }
  }

  /** A freshly constructed set accepts no printable character and no code point. */
  method FreshSetAcceptsNothing(name: SetName, givenPrintableCharacter: Option<UString>, codePoint: Option<UTF8Codepoint>)
    returns (validPrintable: bool, validCodepoint: bool, transliterated: Option<UString>)
    ensures !validPrintable && !validCodepoint && transliterated.None?
  {
    var charSet := new TransliterableUTF8CharacterSet(name);
    validPrintable := charSet.IsValid(givenPrintableCharacter);
    validCodepoint := charSet.IsValidCodepoint(codePoint);
    transliterated := charSet.PrintableTransliteratedCharacter(givenPrintableCharacter);
  }

  /**
   * A set built by `withItems` accepts exactly the printable forms of its
   * items' originals, and transliterates each to the transliteration of the
   * last item with that printable form.
   */
  method LookupAfterWithItems(startingSet: TransliterableUTF8CharacterSet, items: seq<TransliterableUTF8Character>,
                              givenPrintableCharacter: UString)
    returns (valid: bool, transliterated: Option<UString>)
    ensures valid <==> exists i | 0 <= i < |items| :: items[i].AsUtf8() == givenPrintableCharacter
    ensures transliterated.Some? <==> valid
    ensures transliterated.Some? ==>
      exists i | 0 <= i < |items| :: items[i].AsUtf8() == givenPrintableCharacter
                                  && items[i].Transliterated() == transliterated.value
    ensures forall i | 0 <= i < |items| && items[i].AsUtf8() == givenPrintableCharacter ::
      (forall j | i < j < |items| :: items[j].AsUtf8() != givenPrintableCharacter) ==>
        transliterated == Some(items[i].Transliterated())
  {
    var charSet := TransliterableUTF8CharacterSet.WithItems(startingSet, items);
    valid := charSet.IsValid(Some(givenPrintableCharacter));
    transliterated := charSet.PrintableTransliteratedCharacter(Some(givenPrintableCharacter));
    TransliterationLookup(items, givenPrintableCharacter);
    forall i | 0 <= i < |items| && items[i].AsUtf8() == givenPrintableCharacter &&
               (forall j | i < j < |items| :: items[j].AsUtf8() != givenPrintableCharacter)
      ensures transliterated == Some(items[i].Transliterated())
    {
      TransliterationLookupLastWins(items, i);
    }
  }
}
